/** Shared vocabulary of the pipeline: optional values, the failures the
    pipeline can raise, byte values, and the concatenation of a list of
    pages (pandas' `concat`). */
module Common {

  datatype Option<+T> = None | Some(value: T)

  /** The exceptions the pipeline can raise, one constructor per cause. */
  datatype Failure =
    | InvalidPageSize           // `range(0, rows, 0)` raises ValueError
    | MalformedEnvelope         // a page entry without its `csv_data` key
    | DecodeError               // bad base64 text or bytes that are not UTF-8
    | ParseError                // text that is not the expected CSV table
    | NothingToConcatenate      // `pd.concat([])` raises ValueError
    | AggregationInconsistency  // report columns of different lengths

  datatype Result<+T> = Ok(value: T) | Err(error: Failure)

  /** A byte, as Python's `bytes` holds it. */
  type byte = x: int | 0 <= x < 256

  /** The parts laid end to end, in order. */
  function Concat<T(!new)>(parts: seq<seq<T>>): (r: seq<T>)
    ensures forall x :: x in r <==> exists k :: 0 <= k < |parts| && x in parts[k]
  {
    if parts == [] then [] else Concat(parts[..|parts| - 1]) + parts[|parts| - 1]
  }

  /** A prefix one element longer is the shorter prefix plus that element. */
  lemma PrefixStep<T>(s: seq<T>, m: nat)
    requires 0 < m <= |s|
    ensures s[..m - 1] + [s[m - 1]] == s[..m]
  {
  }

  lemma ConcatAppend<T(!new)>(parts: seq<seq<T>>, last: seq<T>)
    ensures Concat(parts + [last]) == Concat(parts) + last
  {
    assert (parts + [last])[..|parts|] == parts;
  }

  /** Concatenation distributes over splitting the list of parts anywhere. */
  lemma {:induction false} ConcatSplit<T(!new)>(parts: seq<seq<T>>, k: nat)
    requires k <= |parts|
    ensures Concat(parts) == Concat(parts[..k]) + Concat(parts[k..])
    decreases |parts|
  {
    if k == |parts| {
      assert parts[..k] == parts;
      assert parts[k..] == [];
    } else {
      var n := |parts|;
      var init := parts[..n - 1];
      ConcatSplit(init, k);
      assert init[..k] == parts[..k];
      assert parts[k..] == init[k..] + [parts[n - 1]];
      ConcatAppend(init[k..], parts[n - 1]);
    }
  }

  /** Every element of a part occurs in the concatenation. */
  lemma {:induction false} ConcatContains<T(!new)>(parts: seq<seq<T>>, i: nat, x: T)
    requires i < |parts| && x in parts[i]
    ensures x in Concat(parts)
    decreases |parts|
  {
    var n := |parts|;
    if i < n - 1 {
      ConcatContains(parts[..n - 1], i, x);
    }
  }
}
