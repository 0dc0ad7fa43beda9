/** The checksum program: a static table filled on first use, then one lookup a byte. */
module Crc32Program {
  import opened ShiftRegister
  import opened Crc32

  /** The static table and its init flag. */
  class Table {
    var table: array<bv32>
    var init: bool

    ghost predicate Filled()
      reads this, table
    {
      table.Length == SIZE && Complete(table[..])
    }

    ghost predicate Valid()
      reads this, table
    {
      table.Length == SIZE && (init ==> Filled())
    }

    constructor ()
      ensures Valid() && !init && fresh(table)
    {
      table := new bv32[SIZE](_ => 0);
      init := false;
    }

    method InitTable()
      requires Valid()
      modifies table
      ensures Filled()
    {
      for i := 0 to SIZE
        invariant Upto(i)
      {
        InitEntry(i);
      }
      AllEntries(SIZE);
    }

    /** The first i entries are in place. */
    ghost predicate Upto(i: int)
      reads this, table
    {
      0 <= i <= SIZE == table.Length && table[..i] == Entries(i)
    }

    lemma AllEntries(n: int)
      requires n == SIZE && Upto(n)
      ensures Filled()
    {
      WholePrefix(table[..], n);
      EntriesComplete(table[..], n);
    }

    method InitEntry(i: int)
      requires Upto(i) && i < SIZE
      modifies table
      ensures Upto(i + 1)
    {
      var crc := EightSteps(i);
      table[i] := crc;
      assert table[..i + 1] == table[..i] + [crc];
    }

    /** The inner loop. */
    static method EightSteps(i: int) returns (crc: bv32)
      requires 0 <= i < 256
      ensures crc == Entry(i)
    {
      crc := i as bv32;
      ghost var c := crc;
      for j := 0 to 8
        invariant Iter(Reg(), crc, 8 - j) == Iter(Reg(), c, EIGHT)
      {
        if crc & 1 != 0 {
          crc := (crc >> 1) ^ 0xEDB8_8320;
        } else {
          crc := crc >> 1;
        }
      }
    }

    method Lookup(x: bv32) returns (e: bv32)
      requires Filled() && x < 256
      ensures e == Iter(Reg(), x, EIGHT)
    {
      TableIndex(x);
      assert Holds(table[..], x);
      e := table[x as int];
    }

    /** The loop body: one lookup takes in one byte. */
    method TakeByte(ret: bv32, b: bv8) returns (ret': bv32)
      requires Filled()
      ensures ret' == Feed(Reg(), ret, b)
    {
      IndexInRange(ret, b);
      var e := Lookup(Xor(Low(ret), Widen(b)));
      TableStep(ret, b, EIGHT);
      ret' := Xor(e, DropByte(ret));
    }

    method TakeAll(buf: Bytes) returns (ret: bv32)
      requires Filled()
      ensures ret == Run(Reg(), INITIAL, buf)
    {
      ret := 0xFFFF_FFFF;
      for i := 0 to |buf|
        invariant ret == Run(Reg(), INITIAL, buf[..i])
      {
        assert buf[..i + 1][..i] == buf[..i];
        ret := TakeByte(ret, buf[i]);
      }
      assert buf[..|buf|] == buf;
    }

    method Crc32(buf: Bytes) returns (crc: bv32)
      requires Valid()
      modifies this`init, table
      ensures Valid() && init && crc == Crc(buf)
    {
      if !init {
        InitTable();
        init := true;
      }
      var ret := TakeAll(buf);
      crc := !ret;
    }
  }

  lemma WholePrefix<T>(s: seq<T>, n: int)
    requires n == |s|
    ensures s[..n] == s
  {
  }
}
