/** The growable string: a header with len and free in front of the characters. */
module CString {
  import opened CText

  const CS_MAX_PREALLOC := 1024 * 1024

  // ---------------------------------------------------------------- growth as numbers

  /** Length, spare room, and how much capacity reallocations have had to recopy so far. */
  datatype Extent = Extent(len: nat, free: nat, copied: nat)

  function Capacity(h: Extent): nat {
    h.len + h.free
  }

  function Grown(h: Extent, add: nat): Extent {
    if h.free > add then h
    else
      var need := h.len + add;
      var size := if need < CS_MAX_PREALLOC then 2 * need else need + CS_MAX_PREALLOC;
      Extent(h.len, size - h.len, h.copied + Capacity(h))
  }

  function Appended(h: Extent, add: nat): (r: Extent)
    ensures r.len == h.len + add
  {
    var g := Grown(h, add);
    Extent(g.len + add, g.free - add, g.copied)
  }

  function AppendAll(h: Extent, adds: seq<nat>): Extent {
    if adds == [] then h else Appended(AppendAll(h, adds[..|adds| - 1]), adds[|adds| - 1])
  }

  const EMPTY := Extent(0, 0, 0)

  /** As long as a string grown from empty is shorter than 1 MiB, all recopying together fits its capacity. */
  lemma {:induction false} AmortisedAppend(adds: seq<nat>)
    requires AppendAll(EMPTY, adds).len < 1_048_576
    ensures var h := AppendAll(EMPTY, adds); h.copied <= Capacity(h) <= 2 * h.len
    decreases |adds|
  {
    if adds != [] { AmortisedAppend(adds[..|adds| - 1]); }
  }

  /** Beyond that the room only ever grows by 1 MiB at a time. */
  lemma {:induction false} SpareRoom(adds: seq<nat>)
    ensures var h := AppendAll(EMPTY, adds); h.free <= h.len || h.free <= 1_048_576
    decreases |adds|
  {
    if adds != [] { SpareRoom(adds[..|adds| - 1]); }
  }

  /** Making room leaves a character to spare, whatever the room before. */
  lemma RoomToSpare(h: Extent, add: nat)
    requires h.len + add > 0
    ensures Grown(h, add).free > add && Grown(h, add).len == h.len
  {
  }

  // ---------------------------------------------------------------- trimming as text

  function TrimLeft(s: string, cset: set<char>): string {
    if s != "" && s[0] in cset then TrimLeft(s[1..], cset) else s
  }

  function TrimRight(s: string, cset: set<char>): string {
    if s != "" && s[|s| - 1] in cset then TrimRight(s[..|s| - 1], cset) else s
  }

  function Trimmed(s: string, cset: set<char>): string {
    TrimRight(TrimLeft(s, cset), cset)
  }

  lemma {:induction false} TrimLeftIs(s: string, cset: set<char>, i: int)
    requires 0 <= i <= |s| && (forall k :: 0 <= k < i ==> s[k] in cset) && (i < |s| ==> s[i] !in cset)
    ensures TrimLeft(s, cset) == s[i..]
    decreases i
  {
    if i > 0 { TrimLeftIs(s[1..], cset, i - 1); }
  }

  lemma {:induction false} TrimRightIs(s: string, cset: set<char>, j: int)
    requires 0 <= j <= |s| && (forall k :: j <= k < |s| ==> s[k] in cset) && (j > 0 ==> s[j - 1] !in cset)
    ensures TrimRight(s, cset) == s[..j]
    decreases |s|
  {
    if j < |s| {
      TrimRightIs(s[..|s| - 1], cset, j);
      assert s[..|s| - 1][..j] == s[..j];
    }
  }

  /** What is left neither starts nor ends with a trimmed character, and only such were cut. */
  lemma TrimmedIsCore(s: string, cset: set<char>) returns (i: int, j: int)
    ensures 0 <= i <= j <= |s| && Trimmed(s, cset) == s[i..j]
    ensures forall k :: 0 <= k < i || j <= k < |s| ==> s[k] in cset
    ensures i < j ==> s[i] !in cset && s[j - 1] !in cset
  {
    i := 0;
    while i < |s| && s[i] in cset
      invariant 0 <= i <= |s| && forall k :: 0 <= k < i ==> s[k] in cset
    {
      i := i + 1;
    }
    j := |s|;
    while j > i && s[j - 1] in cset
      invariant i <= j <= |s| && forall k :: j <= k < |s| ==> s[k] in cset
    {
      j := j - 1;
    }
    TrimLeftIs(s, cset, i);
    TrimRightIs(s[i..], cset, j - i);
    assert s[i..][..j - i] == s[i..j];
  }

  // ---------------------------------------------------------------- the object

  class CStr {
    var len: int
    var free: int
    var buf: array<char>
    ghost var copied: nat

    /** len + free is the usable capacity, and the terminator is in bounds. */
    ghost predicate Valid()
      reads this, buf
    {
      0 <= len && 0 <= free && buf.Length == len + free + 1 && buf[len] == NUL
    }

    ghost function Text(): string
      requires Valid()
      reads this, buf
    {
      buf[..len]
    }

    ghost function Shape(): Extent
      requires Valid()
      reads this, buf
    {
      Extent(len, free, copied)
    }

    constructor (init: string)
      ensures Valid() && Text() == init && free == 0 && copied == 0 && fresh(buf)
    {
      len := |init|;
      free := 0;
      copied := 0;
      buf := new char[|init| + 1](i requires 0 <= i => if i < |init| then init[i] else NUL);
      new;
      assert buf[..len] == init;
    }

    /** Room for add more characters; the text stays. */
    method MakeRoomFor(add: nat)
      requires Valid()
      modifies this
      ensures Valid() && Text() == old(Text()) && Shape() == Grown(old(Shape()), add)
      ensures buf == old(buf) || fresh(buf)
      ensures free >= add
    {
      if free > add { return; }
      var newlen := len + add;
      if newlen < CS_MAX_PREALLOC {
        newlen := newlen * 2;
      } else {
        newlen := newlen + CS_MAX_PREALLOC;
      }
      var bigger := new char[newlen + 1](_ => NUL);
      forall i | 0 <= i < len { bigger[i] := buf[i]; }
      copied := copied + len + free;
      assert bigger[..len] == buf[..len];
      buf := bigger;
      free := newlen - len;
    }

    method Append(t: string)
      requires Valid()
      modifies this, buf
      ensures Valid() && Text() == old(Text()) + t && Shape() == Appended(old(Shape()), |t|)
      ensures buf == old(buf) || fresh(buf)
    {
      MakeRoomFor(|t|);
      forall i | 0 <= i < |t| { buf[len + i] := t[i]; }
      buf[len + |t|] := NUL;
      assert buf[..len + |t|] == old(Text()) + t;
      len := len + |t|;
      free := free - |t|;
    }

    /** Cut leading and trailing characters of cset, in place.  strchr finds the terminator too, so NUL counts. */
    method Trim(cset: set<char>)
      requires Valid()
      modifies this, buf
      ensures Valid() && buf == old(buf) && Text() == Trimmed(old(Text()), cset + {NUL})
    {
      ghost var s, cs := Text(), cset + {NUL};
      var sp, ep := 0, len - 1;
      while sp <= len - 1 && (buf[sp] in cset || buf[sp] == NUL)
        invariant 0 <= sp <= len && forall k :: 0 <= k < sp ==> s[k] in cs
      {
        sp := sp + 1;
      }
      while ep >= 0 && (buf[ep] in cset || buf[ep] == NUL)
        invariant -1 <= ep < len && forall k :: ep < k < len ==> s[k] in cs
      {
        ep := ep - 1;
      }
      var newlen := if sp > ep then 0 else ep - sp + 1;
      TrimLeftIs(s, cs, sp);
      TrimRightIs(s[sp..], cs, newlen);
      if sp != 0 {
        forall i | 0 <= i < newlen { buf[i] := buf[sp + i]; }
      }
      assert forall k :: 0 <= k < newlen ==> buf[k] == s[sp + k];
      assert buf[..newlen] == s[sp..][..newlen];
      buf[newlen] := NUL;
      free := free + (len - newlen);
      len := newlen;
    }
  }
}
