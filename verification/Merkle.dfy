/** The in-place merkle root (miner/merkle.c), for any node type and any pair hash. */
module Merkle {
  import opened Words

  // ---------------------------------------------------------------- the tree, top down

  /** Nodes d levels above n leaves. */
  function Width(n: nat, d: nat): nat {
    if d == 0 then n else (Width(n, d - 1) + 1) / 2
  }

  /** Node i, d levels above the leaves: the hash of its two children, a missing right child
      replaced by a copy of the left one. */
  function Node<T>(hash: (T, T) -> T, leaves: seq<T>, d: nat, i: nat): T
    requires i < Width(|leaves|, d)
    decreases d
  {
    if d == 0 then leaves[i]
    else
      var left := Node(hash, leaves, d - 1, 2 * i);
      hash(left, if 2 * i + 1 < Width(|leaves|, d - 1) then Node(hash, leaves, d - 1, 2 * i + 1) else left)
  }

  /** Levels until one node is left. */
  function Height(n: nat): nat
    requires n > 0
  {
    if n == 1 then 0 else 1 + Height((n + 1) / 2)
  }

  lemma {:induction false} WidthShift(n: nat, d: nat)
    ensures Width(n, d + 1) == Width((n + 1) / 2, d)
  {
    if d > 0 { WidthShift(n, d - 1); }
  }

  lemma {:induction false} WidthAtHeight(n: nat)
    requires n > 0
    ensures Width(n, Height(n)) == 1
  {
    if n > 1 {
      WidthAtHeight((n + 1) / 2);
      WidthShift(n, Height((n + 1) / 2));
    }
  }

  function Root<T>(hash: (T, T) -> T, leaves: seq<T>): T
    requires leaves != []
  {
    WidthAtHeight(|leaves|);
    Node(hash, leaves, Height(|leaves|), 0)
  }

  // ---------------------------------------------------------------- one row

  function Row<T>(hash: (T, T) -> T, s: seq<T>): (r: seq<T>)
    ensures |r| == (|s| + 1) / 2
  {
    seq((|s| + 1) / 2, i requires 0 <= i < (|s| + 1) / 2 =>
      hash(s[2 * i], if 2 * i + 1 < |s| then s[2 * i + 1] else s[2 * i]))
  }

  lemma {:induction false} NodeOverRow<T>(hash: (T, T) -> T, s: seq<T>, d: nat, i: nat)
    requires i < Width(|s|, d + 1)
    ensures Width(|s|, d + 1) == Width(|Row(hash, s)|, d)
    ensures Node(hash, s, d + 1, i) == Node(hash, Row(hash, s), d, i)
    decreases d
  {
    WidthShift(|s|, d);
    if d > 0 {
      WidthShift(|s|, d - 1);
      NodeOverRow(hash, s, d - 1, 2 * i);
      if 2 * i + 1 < Width(|s|, d) { NodeOverRow(hash, s, d - 1, 2 * i + 1); }
    }
  }

  /** Replacing a row by its parents keeps the root. */
  lemma RowKeepsRoot<T>(hash: (T, T) -> T, s: seq<T>)
    requires |s| > 1
    ensures Root(hash, s) == Root(hash, Row(hash, s))
  {
    var r := Row(hash, s);
    WidthAtHeight(|r|);
    WidthAtHeight(|s|);
    NodeOverRow(hash, s, Height(|r|), 0);
  }

  // ---------------------------------------------------------------- the in-place loops

  /** merkle_root: each row overwrites the front of the one below it, never an id still to be
      read. None stands for the error return on an empty list. */
  method MerkleRoot<T>(hash: (T, T) -> T, ids: array<T>, total: nat) returns (root: Option<T>)
    requires total <= ids.Length
    modifies ids
    ensures root == if total == 0 then None else Some(Root(hash, old(ids[..total])))
  {
    hide Root, Row;
    if total == 0 { return None; }
    var count := total;
    ghost var answer := Root(hash, ids[..total]);
    while count > 1
      invariant 0 < count <= ids.Length && Root(hash, ids[..count]) == answer
      decreases count
    {
      RowKeepsRoot(hash, ids[..count]);
      count := FoldRow(hash, ids, count);
    }
    SingleElement(hash, ids[0]);
    assert ids[..1] == [ids[0]];
    root := Some(ids[0]);
  }

  /** One pass of the outer loop. */
  method FoldRow<T>(hash: (T, T) -> T, ids: array<T>, count: nat) returns (pairs: nat)
    requires 1 < count <= ids.Length
    modifies ids
    ensures 0 < pairs < count && ids[..pairs] == Row(hash, old(ids[..count]))
  {
    hide Row;
    ghost var row := ids[..count];
    pairs := (count + 1) / 2;
    for i := 0 to pairs
      invariant forall k :: 0 <= k < i ==> ids[k] == Row(hash, row)[k]
      invariant forall k :: i <= k < count ==> ids[k] == row[k]
    {
      RowAt(hash, row, i);
      var left := ids[2 * i];
      var right := if 2 * i + 1 < count then ids[2 * i + 1] else ids[2 * i];
      ids[i] := hash(left, right);
    }
  }

  lemma RowAt<T>(hash: (T, T) -> T, s: seq<T>, i: nat)
    requires i < (|s| + 1) / 2
    ensures Row(hash, s)[i] == hash(s[2 * i], if 2 * i + 1 < |s| then s[2 * i + 1] else s[2 * i])
  {
  }

  /** The duplication rule makes two different lists share a root: an odd list of three or more
      and the same list with its last element once more (CVE-2012-2459). */
  lemma LastElementTwice<T>(hash: (T, T) -> T, s: seq<T>)
    requires |s| % 2 == 1 && |s| >= 3
    ensures Root(hash, s) == Root(hash, s + [s[|s| - 1]])
  {
    var t := s + [s[|s| - 1]];
    assert Row(hash, s) == Row(hash, t);
    RowKeepsRoot(hash, s);
    RowKeepsRoot(hash, t);
  }

  /** For a single element the rule does not apply: its root is itself, unhashed. */
  lemma SingleElement<T>(hash: (T, T) -> T, x: T)
    ensures Root(hash, [x]) == x && Root(hash, [x, x]) == hash(x, x)
  {
    assert Height(1) == 0;
    assert Row(hash, [x, x]) == [hash(x, x)];
    RowKeepsRoot(hash, [x, x]);
  }
}
