/** Listing the rows of a table keyed by positive integer ids: a scan of the
    id range below the table's next id, in ascending id order. */
module Tables {

  /** The members of `ks` in the range 1 .. n-1, smallest first, each once. */
  function KeysBelow(ks: set<int>, n: int): (r: seq<int>)
    ensures forall i :: 0 <= i < |r| ==> r[i] in ks && 0 < r[i] < n
    ensures forall k :: k in ks && 0 < k < n ==> k in r
    ensures forall i, j :: 0 <= i < j < |r| ==> r[i] < r[j]
    decreases n
  {
    if n <= 1 then []
    else
      var below := KeysBelow(ks, n - 1);
      if n - 1 in ks then below + [n - 1] else below
  }
}
