/**
 The table of (instruction, position) pairs a search has already followed: a bit
 table for small products, a hash set of keys past that.
 */
module AreVisited {
  import opened AreSteps
  import opened Finite

  const DENSE_BITS: nat := 0x10_0000

  /** Sixty-four bits. */
  type Word = w: seq<bool> | |w| == 64 witness seq(64, _ => false)

  function NoBits(): Word {
    seq(64, _ => false)
  }

  predicate TableHas(bits: seq<Word>, k: nat) {
    k / 64 < |bits| && bits[k / 64][k % 64]
  }

  function TableSet(bits: seq<Word>, k: nat): (r: seq<Word>)
    requires k / 64 < |bits|
    ensures |r| == |bits|
  {
    bits[k / 64 := bits[k / 64][k % 64 := true]]
  }

  /** Setting one bit of the table sets it and no other. */
  lemma TableSetKeeps(bits: seq<Word>, k: nat, q: nat)
    requires k / 64 < |bits|
    ensures TableHas(TableSet(bits, k), q) <==> q == k || TableHas(bits, q)
  {
    if q / 64 == k / 64 && q % 64 == k % 64 {
      assert k == 64 * (k / 64) + k % 64 && q == 64 * (q / 64) + q % 64;
    }
  }

  /** A key below the table's size has a word. */
  lemma WordInRange(k: nat, size: nat)
    requires k < size
    ensures k / 64 < (size + 63) / 64
  {
  }

  lemma {:induction false} NextRow(a: nat, b: nat, width: nat)
    requires a < b
    ensures a * width + width <= b * width
    decreases b
  {
    if a + 1 < b {
      NextRow(a, b - 1, width);
      assert b * width == (b - 1) * width + width;
    } else {
      assert b * width == (a + 1) * width == a * width + width;
    }
  }

  /** Keys of different pairs differ. */
  lemma KeyInjective(width: nat, a: Config, b: Config)
    requires a.pos < width && b.pos < width
    requires Key(width, a) == Key(width, b)
    ensures a == b
  {
    if a.pc < b.pc {
      NextRow(a.pc, b.pc, width);
    } else if b.pc < a.pc {
      NextRow(b.pc, a.pc, width);
    }
  }

  lemma KeyInRange(insts: nat, width: nat, c: Config)
    requires c.pc < insts && c.pos < width
    ensures Key(width, c) < insts * width
  {
    NextRow(c.pc, insts, width);
  }

  function Key(width: nat, c: Config): nat {
    c.pc * width + c.pos
  }

  function Keys(width: nat, cs: set<Config>): set<nat> {
    set c | c in cs :: Key(width, c)
  }

  lemma {:induction false} KeysSize(width: nat, cs: set<Config>)
    requires forall c :: c in cs ==> c.pos < width
    ensures |Keys(width, cs)| == |cs|
    decreases |cs|
  {
    hide Key;
    if cs != {} {
      var c :| c in cs;
      var rest := cs - {c};
      KeysSize(width, rest);
      if Key(width, c) in Keys(width, rest) {
        var d :| d in rest && Key(width, d) == Key(width, c);
        KeyInjective(width, c, d);
      }
      assert Keys(width, cs) == Keys(width, rest) + {Key(width, c)};
    }
  }

  /** A table can mark no more pairs than there are. */
  lemma PairsFit(insts: nat, width: nat, cs: set<Config>)
    requires forall c :: c in cs ==> c.pc < insts && c.pos < width
    ensures |cs| <= insts * width
  {
    hide Key;
    if cs != {} {
      var c :| c in cs;
      KeyInRange(insts, width, c);
      KeysSize(width, cs);
      forall k | k in Keys(width, cs) ensures k in UpTo(insts * width - 1) {
        var d :| d in cs && Key(width, d) == k;
        KeyInRange(insts, width, d);
      }
      SubsetSize(Keys(width, cs), UpTo(insts * width - 1));
    }
  }

  class Visited {
    const insts: nat
    const width: nat
    const dense: bool
    /** The bit table. */
    var bits: seq<Word>
    /** The hash set. */
    var keys: set<nat>
    /** The pairs marked so far. */
    ghost var marked: set<Config>

    ghost predicate Valid()
      reads this
    {
      && (dense ==> |bits| == (insts * width + 63) / 64)
      && forall c: Config | c.pc < insts && c.pos < width ::
        c in marked <==> HasKey(Key(width, c))
    }

    ghost predicate HasKey(k: nat)
      reads this
    {
      if dense then TableHas(bits, k) else k in keys
    }

    constructor (insts: nat, width: nat)
      ensures Valid() && marked == {}
      ensures this.insts == insts && this.width == width
    {
      this.insts := insts;
      this.width := width;
      this.dense := insts * width <= DENSE_BITS;
      this.bits := if insts * width <= DENSE_BITS then seq((insts * width + 63) / 64, _ => NoBits()) else [];
      this.keys := {};
      this.marked := {};
    }

    /** A table that is a hash set whatever its size. */
    constructor Sparse(insts: nat, width: nat)
      ensures Valid() && marked == {}
      ensures this.insts == insts && this.width == width
    {
      this.insts := insts;
      this.width := width;
      this.dense := false;
      this.bits := [];
      this.keys := {};
      this.marked := {};
    }

    /** Mark a pair; false when it was marked already. */
    method Insert(pc: nat, pos: nat) returns (added: bool)
      requires Valid() && pc < insts && pos < width
      modifies this
      ensures Valid()
      ensures added <==> Config(pc, pos) !in old(marked)
      ensures marked == old(marked) + {Config(pc, pos)}
    {
      hide Key, TableHas, TableSet;
      var k := Key(width, Config(pc, pos));
      KeyInRange(insts, width, Config(pc, pos));
      WordInRange(k, insts * width);
      assert Config(pc, pos) in marked <==> HasKey(k);
      if dense {
        added := !TableHas(bits, k);
        bits := TableSet(bits, k);
      } else {
        added := k !in keys;
        keys := keys + {k};
      }
      marked := marked + {Config(pc, pos)};
      forall c: Config | c.pc < insts && c.pos < width
        ensures c in marked <==> HasKey(Key(width, c))
      {
        var q := Key(width, c);
        assert c in old(marked) <==> old(HasKey(q));
        if q == k { KeyInjective(width, c, Config(pc, pos)); }
        if dense { TableSetKeeps(old(bits), k, q); }
      }
    }
  }
}
