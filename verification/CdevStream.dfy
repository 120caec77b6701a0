/** Records on a byte stream: written one after another, found again by the sizes in their headers. */
module CdevStream {

  type Byte = x: int | 0 <= x < 256

  const HEADER: nat := 8
  const MAX_RECORD: nat := 65535

  /** A record starts with a header whose last two bytes hold its size. */
  predicate RecordOk(r: seq<Byte>) { HEADER <= |r| <= MAX_RECORD && r[6] as int + 256 * (r[7] as int) == |r| }

  function SizeAt(s: seq<Byte>): nat
    requires |s| >= HEADER
  { s[6] as int + 256 * (s[7] as int) }

  predicate AllOk(rs: seq<seq<Byte>>) { forall i :: 0 <= i < |rs| ==> RecordOk(rs[i]) }

  function Flat(rs: seq<seq<Byte>>): seq<Byte> { if rs == [] then [] else rs[0] + Flat(rs[1..]) }

  lemma {:induction false} FlatAppend(a: seq<seq<Byte>>, b: seq<seq<Byte>>)
    ensures Flat(a + b) == Flat(a) + Flat(b)
  {
    if a == [] { assert a + b == b; } else {
      assert (a + b)[1..] == a[1..] + b;
      FlatAppend(a[1..], b);
      assert a[0] + (Flat(a[1..]) + Flat(b)) == a[0] + Flat(a[1..]) + Flat(b);
    }
  }

  lemma FlatOne(a: seq<seq<Byte>>, r: seq<Byte>)
    ensures Flat(a + [r]) == Flat(a) + r
  {
    FlatAppend(a, [r]);
    assert Flat([r]) == r + [];
  }

  /** At the start of a stream of records, the header gives the size of the first one. */
  lemma FirstSize(rs: seq<seq<Byte>>, s: seq<Byte>)
    requires AllOk(rs) && s <= Flat(rs) && |s| >= HEADER
    ensures rs != [] && SizeAt(s) == |rs[0]|
    ensures |s| >= |rs[0]| ==> s[..|rs[0]|] == rs[0] && s[|rs[0]|..] <= Flat(rs[1..])
  {
    var f := Flat(rs);
    assert s == f[..|s|];
    assert f == rs[0] + Flat(rs[1..]);
    assert s[6] == f[6] == rs[0][6] && s[7] == f[7] == rs[0][7];
    if |s| >= |rs[0]| {
      assert s[..|rs[0]|] == f[..|rs[0]|] == rs[0];
      assert s[|rs[0]|..] == f[|rs[0]|..|s|];
    }
  }

  /** A whole number of records followed by less than one more record. */
  predicate Cut(s: seq<Byte>) { !(|s| >= HEADER && |s| >= SizeAt(s)) }

  /** What is left of a record that has not arrived whole is shorter than the longest record. */
  lemma LeftoverSmall(rs: seq<seq<Byte>>, s: seq<Byte>)
    requires AllOk(rs) && s <= Flat(rs) && Cut(s)
    ensures |s| < MAX_RECORD
  {
    if |s| >= HEADER { FirstSize(rs, s); }
  }

  /** The stream has one reading: if `s` is the start of the records `rs` and splits into the records
      `a` and a remainder that holds no whole record, then `a` is the records of `rs` that fit in `s`. */
  lemma {:induction false} OneReading(rs: seq<seq<Byte>>, a: seq<seq<Byte>>, rest: seq<Byte>)
    requires AllOk(rs) && AllOk(a) && Flat(a) + rest <= Flat(rs) && Cut(rest)
    ensures |a| <= |rs| && a == rs[..|a|]
    ensures |a| == |rs| || |Flat(rs[..|a| + 1])| > |Flat(a) + rest|
    decreases |a|
  {
    var s := Flat(a) + rest;
    if a == [] {
      assert s == rest;
      if rs != [] {
        assert rs[..1] == [rs[0]] && Flat(rs[..1]) == rs[0] + [];
        if |rest| >= HEADER { FirstSize(rs, rest); }
      }
    } else {
      assert Flat(a) == a[0] + Flat(a[1..]);
      assert s == a[0] + (Flat(a[1..]) + rest);
      assert s[6] == a[0][6] && s[7] == a[0][7];
      FirstSize(rs, s);
      assert |rs[0]| == |a[0]| && s[..|a[0]|] == a[0];
      assert s[|a[0]|..] == Flat(a[1..]) + rest;
      OneReading(rs[1..], a[1..], rest);
      assert rs[..|a|] == [rs[0]] + rs[1..][..|a| - 1];
      if |a| < |rs| {
        assert rs[..|a| + 1] == [rs[0]] + rs[1..][..|a|];
        assert rs[..|a| + 1][1..] == rs[1..][..|a|];
      }
    }
  }

  // ----- the records of a device -----

  /** An application's record, or a note of how many were lost. */
  datatype Entry = App(bytes: seq<Byte>) | Lost(count: nat)

  function LittleEndian(v: nat, n: nat): (r: seq<Byte>)
    ensures |r| == n
  { if n == 0 then [] else [v % 256] + LittleEndian(v / 256, n - 1) }

  const LOST_SIZE: nat := 24

  /** `struct perf_record_lost`: type 2, size 24, id 0, the count. */
  function LostRecord(count: nat): (r: seq<Byte>)
    ensures |r| == LOST_SIZE && RecordOk(r)
  { [2, 0, 0, 0, 0, 0, 24, 0] + LittleEndian(0, 8) + LittleEndian(count, 8) }

  // ----- the fields of a record -----

  /** The number little-endian bytes stand for. */
  function Value(bs: seq<Byte>): nat { if bs == [] then 0 else bs[0] as int + 256 * Value(bs[1..]) }

  function Power256(n: nat): nat { if n == 0 then 1 else 256 * Power256(n - 1) }

  lemma {:induction false} ValueOf(v: nat, n: nat)
    requires v < Power256(n)
    ensures Value(LittleEndian(v, n)) == v
  {
    if n > 0 { ValueOf(v / 256, n - 1); }
  }

  /** `header.type`, `header.misc`, and behind the header the `id` and `lost` of a note. */
  function TypeOf(r: seq<Byte>): nat
    requires |r| >= HEADER
  { Value(r[0..4]) }

  function MiscOf(r: seq<Byte>): nat
    requires |r| >= HEADER
  { Value(r[4..6]) }

  function IdOf(r: seq<Byte>): nat
    requires |r| >= LOST_SIZE
  { Value(r[8..16]) }

  function LostOf(r: seq<Byte>): nat
    requires |r| >= LOST_SIZE
  { Value(r[16..24]) }

  const PERF_RECORD_LOST: nat := 2
  const TWO64: nat := 0x1_0000_0000_0000_0000

  /** A note says how many were lost. */
  lemma NoteSays(count: nat)
    requires count < TWO64
    ensures var r := LostRecord(count);
            TypeOf(r) == PERF_RECORD_LOST && MiscOf(r) == 0 && SizeAt(r) == 24 && IdOf(r) == 0 && LostOf(r) == count
  {
    var r := LostRecord(count);
    assert r[8..16] == LittleEndian(0, 8) && r[16..24] == LittleEndian(count, 8);
    EightBytes();
    ValueOf(0, 8);
    ValueOf(count, 8);
    assert r[0..4] == [2, 0, 0, 0] && r[4..6] == [0, 0];
    assert Value([0, 0, 0]) == 0 by { assert Value([0, 0]) == 0; }
    assert [2, 0, 0, 0][1..] == [0, 0, 0] && Value([2, 0, 0, 0]) == 2;
  }

  lemma EightBytes()
    ensures Power256(8) == TWO64
  {
    assert Power256(2) == 0x1_0000 && Power256(4) == 0x1_0000_0000;
    assert Power256(6) == 0x1_0000_0000_0000;
  }

  function BytesOf(e: Entry): seq<Byte> { if e.App? then e.bytes else LostRecord(e.count) }

  function AllBytes(es: seq<Entry>): (r: seq<seq<Byte>>)
    ensures |r| == |es| && forall i :: 0 <= i < |es| ==> r[i] == BytesOf(es[i])
  { if es == [] then [] else [BytesOf(es[0])] + AllBytes(es[1..]) }

  lemma AllBytesOne(es: seq<Entry>, e: Entry)
    ensures AllBytes(es + [e]) == AllBytes(es) + [BytesOf(e)]
  {}

  function Apps(es: seq<Entry>): nat {
    if es == [] then 0 else Apps(es[..|es| - 1]) + if es[|es| - 1].App? then 1 else 0
  }

  function Noted(es: seq<Entry>): nat {
    if es == [] then 0 else Noted(es[..|es| - 1]) + if es[|es| - 1].Lost? then es[|es| - 1].count else 0
  }

  lemma CountOne(es: seq<Entry>, e: Entry)
    ensures Apps(es + [e]) == Apps(es) + (if e.App? then 1 else 0)
    ensures Noted(es + [e]) == Noted(es) + (if e.Lost? then e.count else 0)
  {
    assert (es + [e])[..|es|] == es;
  }

  // ----- the same read from the bytes -----

  predicate IsNote(r: seq<Byte>) { |r| >= LOST_SIZE && TypeOf(r) == PERF_RECORD_LOST }

  /** Records that are no notes, and what the notes say. */
  function Others(rs: seq<seq<Byte>>): nat {
    if rs == [] then 0 else Others(rs[..|rs| - 1]) + if IsNote(rs[|rs| - 1]) then 0 else 1
  }

  function Told(rs: seq<seq<Byte>>): nat {
    if rs == [] then 0 else Told(rs[..|rs| - 1]) + if IsNote(rs[|rs| - 1]) then LostOf(rs[|rs| - 1]) else 0
  }

  lemma ReadOne(rs: seq<seq<Byte>>, r: seq<Byte>)
    ensures Others(rs + [r]) == Others(rs) + (if IsNote(r) then 0 else 1)
    ensures Told(rs + [r]) == Told(rs) + (if IsNote(r) then LostOf(r) else 0)
  {
    assert (rs + [r])[..|rs + [r]| - 1] == rs;
  }

  /** As long as no application sends notes of its own, the counts can be read off the records. */
  lemma {:induction false} ReadOff(es: seq<Entry>)
    requires Noted(es) < TWO64 && forall e :: e in es && e.App? ==> !IsNote(e.bytes)
    ensures Others(AllBytes(es)) == Apps(es) && Told(AllBytes(es)) == Noted(es)
  {
    hide IsNote; hide LostOf; hide LostRecord; hide AllBytes;
    if es == [] {
      assert AllBytes(es) == [];
    } else {
      var f, e := es[..|es| - 1], es[|es| - 1];
      assert es == f + [e] && e in es;
      AllBytesOne(f, e);
      CountOne(f, e);
      ReadOff(f);
      ReadOne(AllBytes(f), BytesOf(e));
      if e.Lost? { NoteIs(e.count); }
    }
  }

  lemma NoteIs(count: nat)
    requires count < TWO64
    ensures IsNote(LostRecord(count)) && LostOf(LostRecord(count)) == count
  {
    NoteSays(count);
  }
}
