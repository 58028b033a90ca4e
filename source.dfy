/**
 * The byte source a request parser reads from (an io.Reader over the
 * connection), as the sequence of what its successive Read calls return.
 * Running off the end of the sequence is io.EOF.
 */
module Source {
  /** What one Read returns: some bytes, or an error other than io.EOF. */
  datatype ReadOutcome = Bytes(chunk: string) | Failure(reason: string)

  /** A first failure of `src[1..]`, behind a read that delivered bytes, is the first failure of `src`. */
  lemma FirstFailureShifted(src: seq<ReadOutcome>, reason: string)
    requires |src| != 0 && src[0].Bytes?
    requires exists i :: 0 <= i < |src[1..]| && src[1..][i] == Failure(reason) && forall j :: 0 <= j < i ==> src[1..][j].Bytes?
    ensures exists i :: 0 <= i < |src| && src[i] == Failure(reason) && forall j :: 0 <= j < i ==> src[j].Bytes?
  {
    var i :| 0 <= i < |src[1..]| && src[1..][i] == Failure(reason) && forall j :: 0 <= j < i ==> src[1..][j].Bytes?;
    assert src[i + 1] == Failure(reason);
    forall j | 0 <= j < i + 1 ensures src[j].Bytes? {
      if j > 0 { assert src[j] == src[1..][j - 1]; }
    }
  }
}
