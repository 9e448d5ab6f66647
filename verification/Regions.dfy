// The region allocator (mix.go:248-294): many small buffers out of a few blocks, each of which keeps its
// used size in its own last two bytes.

module Regions {
  import opened Bytes

  /** The first block is part of the region; the others are 4K blocks from the pool. */
  const BLOCK0: nat := 392
  const FOOTER: nat := 2

  /** A buffer that was handed out: block[from..edge]. */
  datatype Span = Span(block: array<byte>, from: nat, edge: nat)

  predicate Apart(a: Span, b: Span) {
    a.block != b.block || a.edge <= b.from || b.edge <= a.from
  }

  /** The used size in the footer of a block. */
  function Used(block: seq<byte>): nat
    requires |block| >= FOOTER
  {
    0x100 * (block[|block| - 2] as int) + block[|block| - 1] as int
  }

  class Region {
    const block0: array<byte>
    var blocks: seq<array<byte>>
    ghost var handed: seq<Span>

    constructor ()
      ensures fresh(block0) && Valid() && handed == [] && blocks == [block0] && Used(block0[..]) == 0
    {
      block0 := new byte[BLOCK0](_ => 0);
      blocks := [block0];
      handed := [];
    }

    ghost predicate Blocks()
      reads this
    {
      && block0.Length == BLOCK0 && |blocks| >= 1 && blocks[0] == block0
      && (forall k | 1 <= k < |blocks| :: blocks[k].Length == K4)
      && (forall j, k | 0 <= j < k < |blocks| :: blocks[j] != blocks[k])
    }

    /** The used part of a block never reaches its footer. */
    ghost predicate Filled(block: array<byte>)
      reads block
    {
      FOOTER <= block.Length && Used(block[..]) + FOOTER <= block.Length
    }

    /** A buffer lies in the used part of its block, or has an array of its own. */
    ghost predicate Lies(s: Span)
      reads this, s.block
    {
      s.from < s.edge <= s.block.Length &&
        (s.block in blocks ==> FOOTER <= s.block.Length && s.edge <= Used(s.block[..]))
    }

    /** Everything handed out lies where it should, and no two buffers overlap. */
    ghost predicate Valid()
      reads this, blocks, set s | s in handed :: s.block
    {
      && Blocks()
      && (forall k | 0 <= k < |blocks| :: Filled(blocks[k]))
      && (forall i | 0 <= i < |handed| :: Lies(handed[i]))
      && (forall i, j | 0 <= i < j < |handed| :: Apart(handed[i], handed[j]))
    }

    /** Init: the first block is empty again. */
    method Init()
      requires block0.Length == BLOCK0
      modifies this, block0
      ensures Valid() && handed == [] && blocks == [block0] && Used(block0[..]) == 0
    {
      blocks := [block0];
      block0[BLOCK0 - 2], block0[BLOCK0 - 1] := 0, 0;
      handed := [];
    }

    /** Make: from the last block if it has room, else from a new block, or on its own if it is too large. */
    method Make(size: nat) returns (s: Span)
      requires Valid() && 0 < size < 0x4000_0000_0000_0000
      modifies this, blocks
      ensures Valid() && handed == old(handed) + [s] && s.edge - s.from == size
      ensures forall i | 0 <= i < |old(handed)| :: Apart(s, old(handed)[i])
      ensures
        var last := old(blocks[|blocks| - 1]);
        var used := Used(old(blocks[|blocks| - 1][..]));
        && (used + size + FOOTER <= last.Length ==> s == Span(last, used, used + size))
        && (used + size + FOOTER > last.Length ==>
             fresh(s.block) && s.from == 0 && s.block.Length == (if size + FOOTER > K4 then size else K4))
        && blocks == old(blocks) + (if used + size + FOOTER > last.Length && size + FOOTER <= K4 then [s.block] else [])
      ensures s.block in blocks ==> s.edge + FOOTER <= s.block.Length && Used(s.block[..]) == s.edge
      ensures forall i | 0 <= i < |old(handed)| :: Content(old(handed)[i]) == old(Content(handed[i]))
    {
      var block := blocks[|blocks| - 1];
      var ceil := block.Length - FOOTER;
      assert Filled(block);
      var used: nat := 0x100 * (block[ceil] as int) + block[ceil + 1] as int;
      assert used == Used(block[..]);
      if used + size <= ceil {
        s := MakeHere(size, used);
      } else if size > K4 - FOOTER {
        s := MakeAlone(size);
      } else {
        s := MakeBlock(size);
      }
    }

    method MakeHere(size: nat, used: nat) returns (s: Span)
      requires Valid() && size > 0
      requires used == Used(blocks[|blocks| - 1][..]) && used + size + FOOTER <= blocks[|blocks| - 1].Length
      modifies this`handed, blocks[|blocks| - 1]
      ensures Valid() && handed == old(handed) + [s]
      ensures s == Span(blocks[|blocks| - 1], used, used + size) && Used(s.block[..]) == s.edge
      ensures forall i | 0 <= i < |old(handed)| :: Content(old(handed)[i]) == old(Content(handed[i]))
    {
      hide Used;
      s := Span(blocks[|blocks| - 1], used, used + size);
      forall i | 0 <= i < |handed|
        ensures Apart(s, handed[i])
      {
        assert Lies(handed[i]);
      }
      RaiseUsed(used + size);
      handed := handed + [s];
    }

    /** More of the last block is used: that harms nobody. */
    method RaiseUsed(used: nat)
      requires Valid() && Used(blocks[|blocks| - 1][..]) <= used && used + FOOTER <= blocks[|blocks| - 1].Length
      modifies blocks[|blocks| - 1]
      ensures Valid() && Used(blocks[|blocks| - 1][..]) == used
      ensures forall i | 0 <= i < |handed| :: Content(handed[i]) == old(Content(handed[i]))
    {
      hide Used;
      var block := blocks[|blocks| - 1];
      assert forall i | 0 <= i < |handed| :: Lies(handed[i]);
      assert forall k | 0 <= k < |blocks| :: Filled(blocks[k]);
      ghost var was := block[..];
      SetUsed(block, used);
      forall i | 0 <= i < |handed|
        ensures Lies(handed[i]) && Content(handed[i]) == old(Content(handed[i]))
      {
        assert old(Lies(handed[i]));
        if handed[i].block == block {
          FrontKept(was, block[..], handed[i].from, handed[i].edge);
        }
      }
    }

    method MakeAlone(size: nat) returns (s: Span)
      requires Valid() && size > 0
      modifies this`handed
      ensures Valid() && handed == old(handed) + [s] && fresh(s.block) && s.from == 0 &&
        s.edge == s.block.Length == size
      ensures s.block !in blocks
    {
      var own := new byte[size](_ => 0);
      s := Span(own, 0, size);
      assert forall i | 0 <= i < |handed| :: Lies(handed[i]);
      handed := handed + [s];
    }

    method MakeBlock(size: nat) returns (s: Span)
      requires Valid() && 0 < size <= K4 - FOOTER
      modifies this`handed, this`blocks
      ensures Valid() && handed == old(handed) + [s] && fresh(s.block) && blocks == old(blocks) + [s.block]
      ensures s.from == 0 && s.edge == size && s.block.Length == K4 && Used(s.block[..]) == s.edge
    {
      hide Used;
      var more := new byte[K4](_ => 0);
      s := Span(more, 0, size);
      assert forall i | 0 <= i < |handed| :: Lies(handed[i]);
      assert forall k | 0 <= k < |blocks| :: Filled(blocks[k]);
      SetUsed(more, size);
      blocks := blocks + [more];
      forall i | 0 <= i < |handed|
        ensures Lies(handed[i])
      {
      }
      handed := handed + [s];
    }

    /** binary.BigEndian.PutUint16 into the footer */
    static method SetUsed(block: array<byte>, used: nat)
      requires used + FOOTER <= block.Length && used < 0x1_0000
      modifies block
      ensures Used(block[..]) == used && block[..block.Length - FOOTER] == old(block[..block.Length - FOOTER])
    {
      var ceil := block.Length - FOOTER;
      block[ceil], block[ceil + 1] := used / 0x100, used % 0x100;
    }

    /** Whoever got a buffer may write all of it: the region and all other buffers stay as they are. */
    method Write(s: Span, data: seq<byte>, ghost n: nat)
      requires Valid() && n < |handed| && s == handed[n] && |data| == s.edge - s.from
      modifies s.block
      ensures Valid() && Content(s) == data
      ensures forall i | 0 <= i < |handed| && i != n :: Content(handed[i]) == old(Content(handed[i]))
    {
      hide Pasted;
      assert Lies(s);
      assert forall k | 0 <= k < |blocks| :: Filled(blocks[k]);
      assert forall i | 0 <= i < |handed| :: Lies(handed[i]);
      ghost var was := s.block[..];
      CopyInto(s.block, s.from, data);
      PastedSlice(was, s.from, data, s.from, s.edge);
      assert s.block[..][s.from..s.edge] == s.block[s.from..s.edge] && data[..] == data;
      FooterKept(was, s.from, data);
      forall i | 0 <= i < |handed| && i != n
        ensures Content(handed[i]) == old(Content(handed[i]))
      {
        assert Apart(handed[i], s);
        if handed[i].block == s.block {
          PastedSlice(was, s.from, data, handed[i].from, handed[i].edge);
        }
      }
    }

    /** Free: every block that came from the pool goes back, once. */
    method Free() returns (pool: seq<array<byte>>)
      requires Valid()
      modifies this
      ensures pool == old(blocks)[1..]
      ensures forall k | 0 <= k < |pool| :: pool[k].Length == K4
      ensures forall j, k | 0 <= j < k < |pool| :: pool[j] != pool[k]
      ensures blocks == [] && handed == []
    {
      pool := [];
      for i := 1 to |blocks|
        invariant pool == blocks[1..i]
      {
        pool := pool + [blocks[i]];
      }
      assert blocks[1..|blocks|] == blocks[1..];
      blocks := [];
      handed := [];
    }
  }

  lemma FrontKept(was: seq<byte>, now: seq<byte>, from: nat, edge: nat)
    requires |was| == |now| >= FOOTER && was[..|was| - FOOTER] == now[..|was| - FOOTER]
    requires from <= edge <= |was| - FOOTER
    ensures was[from..edge] == now[from..edge]
  {
    assert was[from..edge] == was[..|was| - FOOTER][from..edge];
  }

  /** Nothing that is written in front of the footer changes the used size. */
  lemma FooterKept(was: seq<byte>, from: nat, data: seq<byte>)
    requires from + |data| <= |was|
    ensures from + |data| + FOOTER <= |was| ==> Used(Pasted(was, from, data)) == Used(was)
  {
  }

  ghost function Content(s: Span): seq<byte>
    reads s.block
  {
    if s.from <= s.edge <= s.block.Length then s.block[s.from..s.edge] else []
  }
}
