/** Ancestry: the line of a header down to the genesis block, and its total difficulty. */
module Ancestries {
  import opened ByteStrings
  import opened ChainDbs

  function ParentId(x: Header): BlockId
    requires x.number > 0
  {
    (x.number - 1, x.parentHash)
  }

  ghost predicate Named(hs: Headers) {
    forall id :: id in hs ==> IdOf(hs[id]) == id
  }

  /** All the ancestors of x are there, down to the genesis block g. */
  ghost predicate Linked(g: Hash, hs: Headers, x: Header)
    requires Named(hs)
    decreases x.number
  {
    if x.number == 0 then x.hash == g
    else ParentId(x) in hs && (assert IdOf(hs[ParentId(x)]) == ParentId(x); Linked(g, hs, hs[ParentId(x)]))
  }

  /** The hashes of the ancestors of x and of x itself, by number. */
  ghost function Line(g: Hash, hs: Headers, x: Header): (r: seq<Hash>)
    requires Named(hs) && Linked(g, hs, x)
    ensures |r| == x.number + 1 && r[x.number] == x.hash && r[0] == g
    decreases x.number
  {
    if x.number == 0 then [x.hash]
    else
      assert IdOf(hs[ParentId(x)]) == ParentId(x);
      Line(g, hs, hs[ParentId(x)]) + [x.hash]
  }

  /** The sum of the difficulties along the ancestry. */
  ghost function Weight(g: Hash, hs: Headers, x: Header): nat
    requires Named(hs) && Linked(g, hs, x)
    decreases x.number
  {
    if x.number == 0 then x.difficulty
    else
      assert IdOf(hs[ParentId(x)]) == ParentId(x);
      Weight(g, hs, hs[ParentId(x)]) + x.difficulty
  }

  ghost predicate Within(hs: Headers, more: Headers) {
    forall id :: id in hs ==> id in more && more[id] == hs[id]
  }

  /** More headers change nothing about a complete ancestry. */
  lemma {:induction false} LinkedMore(g: Hash, hs: Headers, more: Headers, x: Header)
    requires Named(hs) && Named(more) && Within(hs, more) && Linked(g, hs, x)
    ensures Linked(g, more, x) && Line(g, more, x) == Line(g, hs, x) && Weight(g, more, x) == Weight(g, hs, x)
    decreases x.number
  {
    if x.number > 0 {
      assert IdOf(hs[ParentId(x)]) == ParentId(x);
      LinkedMore(g, hs, more, hs[ParentId(x)]);
    }
  }

  /** The ancestor at a number, and its own line. */
  lemma {:induction false} AncestorAt(g: Hash, hs: Headers, x: Header, i: nat)
    requires Named(hs) && Linked(g, hs, x) && i < x.number
    ensures (i, Line(g, hs, x)[i]) in hs
    ensures var y := hs[(i, Line(g, hs, x)[i])];
      && y.number == i
      && Linked(g, hs, y) && Line(g, hs, y) == Line(g, hs, x)[..i + 1] && Weight(g, hs, y) <= Weight(g, hs, x)
    decreases x.number
  {
    var p := hs[ParentId(x)];
    assert IdOf(p) == ParentId(x);
    if i < p.number {
      AncestorAt(g, hs, p, i);
      assert Line(g, hs, x)[..i + 1] == Line(g, hs, p)[..i + 1];
    } else {
      assert Line(g, hs, x)[..i + 1] == Line(g, hs, p);
    }
  }
}
