/** A model of AseErrorCollection: the read-only, ordered collection of
    server errors that the ASE client hands back after a round-trip, with
    its rule for picking the "main" (most severe) error. */
module AseClient {

  /** An error record reported by the server. Only `severity` is ever
      inspected by the collection; `message` stands for the rest of the
      record, so two records of equal severity can be told apart. */
  datatype AseError = AseError(severity: int, message: string)

  /** A reference that may be null. */
  datatype Option<T> = None | Some(value: T)

  /** The .NET exceptions the collection's operations can raise. */
  datatype Exception =
    | IndexOutOfRangeException     // indexer, index outside [0, Count)
    | ArgumentOutOfRangeException  // CopyTo, negative destination index
    | ArgumentException            // CopyTo, destination too short

  /** The outcome of a getter that may throw. */
  datatype Result<T> = Ok(value: T) | Err(error: Exception)

  /** The outcome of a void method that may throw. */
  datatype Outcome = Pass | Fail(error: Exception)

  /** `k` is the index of the main error of `s`: no record is more severe
      than `s[k]`, and every record after `k` is strictly less severe
      (so among the most severe records, the last one is chosen). */
  predicate IsMostSevereIndex(s: seq<AseError>, k: int) {
    && 0 <= k < |s|
    && (forall j :: 0 <= j < |s| ==> s[j].severity <= s[k].severity)
    && (forall j :: k < j < |s| ==> s[j].severity < s[k].severity)
  }

  /** The index a left-to-right scan settles on: the running best is
      replaced by each later record whose severity is at least as high.
      -1 stands for "no error". */
  function MostSevereIndex(s: seq<AseError>): (r: int)
    ensures r == -1 <==> |s| == 0
    ensures |s| > 0 ==> 0 <= r < |s|
    decreases |s|
  {
    if |s| == 0 then -1
    else if |s| == 1 then 0
    else
      var best := MostSevereIndex(s[..|s| - 1]);
      if s[best].severity <= s[|s| - 1].severity then |s| - 1 else best
  }

  /** The scan selects the last record of maximal severity. */
  lemma {:induction false} MostSevereIndexIsLastMaximum(s: seq<AseError>)
    requires |s| > 0
    ensures IsMostSevereIndex(s, MostSevereIndex(s))
    decreases |s|
  {
    if |s| > 1 {
      var n := |s|;
      var prefix := s[..n - 1];
      MostSevereIndexIsLastMaximum(prefix);
      var best := MostSevereIndex(prefix);
      assert forall j :: 0 <= j < n - 1 ==> prefix[j] == s[j];
      if s[best].severity <= s[n - 1].severity {
        assert MostSevereIndex(s) == n - 1;
      } else {
        assert MostSevereIndex(s) == best;
      }
    }
  }

  /** Only one index satisfies IsMostSevereIndex, and it is the scan's. */
  lemma {:induction false} MostSevereIndexUnique(s: seq<AseError>, k: int)
    requires IsMostSevereIndex(s, k)
    ensures k == MostSevereIndex(s)
  {
    // Were the scan's index r different from k, whichever of r and k comes
    // first would be strictly less severe than the other and yet maximal.
    MostSevereIndexIsLastMaximum(s);
  }

  /** For a non-empty sequence, being the scan's result and being the last
      index of maximal severity are the same thing. */
  lemma {:induction false} MostSevereIndexCharacterization(s: seq<AseError>, k: int)
    requires |s| > 0
    ensures IsMostSevereIndex(s, k) <==> k == MostSevereIndex(s)
  {
    MostSevereIndexIsLastMaximum(s);
    if IsMostSevereIndex(s, k) {
      MostSevereIndexUnique(s, k);
    }
  }

  /** With strictly increasing severities the last record is selected. */
  lemma {:induction false} StrictlyIncreasingSelectsLast(s: seq<AseError>)
    requires |s| > 0
    requires forall i, j :: 0 <= i < j < |s| ==> s[i].severity < s[j].severity
    ensures MostSevereIndex(s) == |s| - 1
  {
    assert IsMostSevereIndex(s, |s| - 1);
    MostSevereIndexUnique(s, |s| - 1);
  }

  /** When two records share the maximal severity, the earlier one is never
      selected: the selection lies at or after the later one. */
  lemma {:induction false} TiedMaximumSelectsLater(s: seq<AseError>, i: int, j: int)
    requires 0 <= i < j < |s|
    requires s[i].severity == s[j].severity
    requires forall k :: 0 <= k < |s| ==> s[k].severity <= s[j].severity
    ensures j <= MostSevereIndex(s)
    ensures s[MostSevereIndex(s)].severity == s[j].severity
  {
    MostSevereIndexIsLastMaximum(s);
  }

  /** Worked cases: a plain maximum, a two-way tie and a tie between two
      maxima in the middle of the sequence. */
  lemma SelectionExamples()
    ensures MostSevereIndex([AseError(3, "a"), AseError(9, "b"), AseError(1, "c")]) == 1
    ensures MostSevereIndex([AseError(7, "a"), AseError(7, "b")]) == 1
    ensures MostSevereIndex([AseError(2, "a"), AseError(9, "b"), AseError(9, "c"), AseError(4, "d")]) == 2
  {
  }

  /** Collects all errors generated by the server for one operation. */
  class AseErrorCollection {
    /** The records, in the order the server reported them. */
    const errors: seq<AseError>
    /** Computed once, at construction; -1 when there are no errors. */
    const indexOfMostSevereError: int

    ghost predicate Valid() {
      indexOfMostSevereError == MostSevereIndex(errors)
    }

    /** A null array of errors is stored as an empty one. */
    constructor (input: Option<seq<AseError>>)
      ensures errors == (if input.Some? then input.value else [])
      ensures Valid()
    {
      var stored := if input.Some? then input.value else [];
      var index := GetIndexOfMostSevereError(stored);
      errors, indexOfMostSevereError := stored, index;
    }

    /** The scan run by the constructor over the records being stored. */
    static method GetIndexOfMostSevereError(errors: seq<AseError>) returns (result: int)
      ensures result == MostSevereIndex(errors)
      ensures |errors| == 0 ==> result == -1
      ensures |errors| > 0 ==> IsMostSevereIndex(errors, result)
    {
      if |errors| == 0 { return -1; }
      if |errors| == 1 {
        MostSevereIndexIsLastMaximum(errors);
        return 0;
      }
      result := 0;
      for i := 1 to |errors|
        invariant result == MostSevereIndex(errors[..i])
      {
        assert errors[..i + 1][..i] == errors[..i];
        if errors[result].severity <= errors[i].severity {
          result := i;
        }
      }
      assert errors[..|errors|] == errors;
      MostSevereIndexIsLastMaximum(errors);
    }

    /** The length of `errors`. */
    function Count(): (n: nat)
      ensures n == |errors|
    {
      |errors|
    }

    /** The error at `index`; out of range raises IndexOutOfRangeException. */
    function Get(index: int): (r: Result<AseError>)
      ensures r.Ok? <==> 0 <= index < Count()
      ensures r.Ok? ==> r.value == errors[index]
      ensures r.Err? ==> r.error == IndexOutOfRangeException
    {
      if 0 <= index < |errors| then Ok(errors[index]) else Err(IndexOutOfRangeException)
    }

    /** The most severe error (the last one among equals), or null when the
        collection is empty. */
    function MainError(): (r: Option<AseError>)
      requires Valid()
      ensures r.None? <==> Count() == 0
      ensures r.Some? ==> r.value == errors[indexOfMostSevereError]
      ensures r.Some? ==> IsMostSevereIndex(errors, indexOfMostSevereError)
      ensures r.Some? ==> forall e :: e in errors ==> e.severity <= r.value.severity
    {
      if indexOfMostSevereError == -1 then None
      else
        MostSevereIndexIsLastMaximum(errors);
        Some(errors[indexOfMostSevereError])
    }

    /** Copies every error, in order, into `destination` from `index` on. The
        destination is validated before anything is written, so a failed
        copy leaves it untouched. */
    method CopyTo(destination: array<AseError>, index: int) returns (outcome: Outcome)
      modifies destination
      ensures index < 0 ==> outcome == Fail(ArgumentOutOfRangeException)
      ensures 0 <= index && destination.Length < index + Count() ==> outcome == Fail(ArgumentException)
      ensures outcome.Pass? <==> 0 <= index && index + Count() <= destination.Length
      ensures outcome.Fail? ==> unchanged(destination)
      ensures outcome.Pass? ==> destination[index..index + Count()] == errors
      ensures outcome.Pass? ==> forall j :: 0 <= j < destination.Length && !(index <= j < index + Count()) ==>
                                  destination[j] == old(destination[j])
    {
      if index < 0 {
        return Fail(ArgumentOutOfRangeException);
      }
      if index > destination.Length - |errors| {
        return Fail(ArgumentException);
      }
      forall k | 0 <= k < |errors| {
        destination[index + k] := errors[k];
      }
      return Pass;
    }
  }
}
