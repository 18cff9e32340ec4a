# AseErrorCollection, modelled in Dafny

`AseErrorCollection` is the read-only collection of server errors that the
AdoNetCore ASE client hands to its caller when one database round-trip
reports several problems. It is built once from an array of `AseError`
(which may be null), keeps the records in the order the server sent them,
and at construction computes which record is the "main" error: the most
severe one, and among records of equal top severity the **last** one.

The model (module `AseClient` in `ase_error_collection.dfy`) has:

- `AseError`, a datatype with an integer `severity` (the only attribute the
  collection inspects) and an opaque `message` so that tied records can be
  told apart;
- `MostSevereIndex`, the left-to-right scan written as a function, and
  `IsMostSevereIndex`, an independent declarative definition ("no record is
  more severe, every later record is strictly less severe"); lemmas prove
  the two agree in both directions;
- the class `AseErrorCollection`, whose two modelled `readonly` fields (the
  records and the cached index) are `const` fields, so no operation can
  change either after construction, with the constructor, the scan as a method
  with a `for` loop, `Count`, the indexer `Get`, `MainError` and `CopyTo`
  writing into a caller-owned `array`.

The .NET exceptions of the indexer and of `Array.Copy` are modelled as
values (`Result.Err`, `Outcome.Fail`) rather than excluded by
preconditions. A null constructor argument is `Option.None`; a null
`MainError` is `Option.None`.

## Model

| member | source | states |
|---|---|---|
| AseClient.MostSevereIndex | src/AdoNetCore.AseClient/AseErrorCollection.cs:60-75 | The scan yields -1 exactly for an empty sequence (so a single record gives 0), and otherwise an index in range. |
| AseClient.MostSevereIndexIsLastMaximum | src/AdoNetCore.AseClient/AseErrorCollection.cs:65-74 | For a non-empty sequence the selected record is at least as severe as every record, and every record after it is strictly less severe (the last maximum wins, per the comment at line 68). |
| AseClient.MostSevereIndexUnique | src/AdoNetCore.AseClient/AseErrorCollection.cs:66-73 | Any index that is a last maximum in that sense is the one the scan returns. |
| AseClient.MostSevereIndexCharacterization | src/AdoNetCore.AseClient/AseErrorCollection.cs:60-75 | For non-empty input: an index is the scan's result if and only if it is the last index of maximal severity. |
| AseClient.StrictlyIncreasingSelectsLast | src/AdoNetCore.AseClient/AseErrorCollection.cs:66-73 | With strictly increasing severities the last record is the main error. |
| AseClient.TiedMaximumSelectsLater | src/AdoNetCore.AseClient/AseErrorCollection.cs:68-72 | When an earlier and a later record share the top severity, the selection is at or after the later one and has that severity: the earlier one never wins. |
| AseClient.SelectionExamples | src/AdoNetCore.AseClient/AseErrorCollection.cs:69 | Worked cases of the `<=` comparison: [3,9,1] selects 1, [7,7] selects 1, [2,9,9,4] selects 2. |
| AseClient.AseErrorCollection.constructor | src/AdoNetCore.AseClient/AseErrorCollection.cs:16-20 | A null array is stored as empty, any other sequence verbatim in order; the cached index is the scan's result. |
| AseClient.AseErrorCollection.GetIndexOfMostSevereError | src/AdoNetCore.AseClient/AseErrorCollection.cs:60-75 | The loop returns -1 on empty input and otherwise the last index of maximal severity; it equals the scan function. |
| AseClient.AseErrorCollection.Count | src/AdoNetCore.AseClient/AseErrorCollection.cs:25 | The count is the number of stored records. |
| AseClient.AseErrorCollection.Get | src/AdoNetCore.AseClient/AseErrorCollection.cs:52-57 | The indexer succeeds exactly for 0 <= index < Count, returning the record at that position; otherwise it raises IndexOutOfRangeException. |
| AseClient.AseErrorCollection.MainError | src/AdoNetCore.AseClient/AseErrorCollection.cs:14 | With non-null records, null exactly when the collection is empty; otherwise the record at the cached index, which is the last record of maximal severity and at least as severe as every stored record. |
| AseClient.AseErrorCollection.CopyTo | src/AdoNetCore.AseClient/AseErrorCollection.cs:36-39 | A negative index raises ArgumentOutOfRangeException and a too-short destination ArgumentException, both leaving the destination unchanged; otherwise the destination slice at the index equals the stored records and all other slots are unchanged. |

## Left out

- `SyncRoot` and `IsSynchronized` (lines 11, 27-29): concurrency plumbing with no behaviour of its own.
- `GetEnumerator` (lines 44-47): a wrapper over the array's own enumerator; the `const` sequence `errors` is the order it would enumerate.
- AseError: records are modelled as non-null values. In the source an element of the array may be null, and two behaviours of that are not modelled: a collection of one null element has Count 1 and a null MainError (line 14 returns the null element), and with two or more elements any null element makes the constructor throw NullReferenceException when its Severity is read (line 69).
- `AseError` beyond its severity: its definition is not part of this model; `message` stands for the rest of the record.
- CopyTo: a null destination (ArgumentNullException), a multi-dimensional destination and a destination of an incompatible element type (ArrayTypeMismatchException, possible because the parameter is an untyped `Array`) are not modelled; the destination is a non-null `array<AseError>`.
- Aliasing of the constructor's argument: the source stores the caller's array reference, so a caller that later writes into that array changes the collection. The model stores an immutable sequence.
- 32-bit bounds: counts and indices are unbounded integers; no collection in the source can be long enough for this to matter.
