/** How operators written next to each other without parentheses are read. */
module Precedence {
  import opened Options
  import opened Words
  import opened Syntax
  import opened Parse
  import opened Printer
  import opened AnyTokens

  /** The operators between two operands that group from the left. */
  predicate Joins(t: Tok) { t.TLor? || t.TLan? || t.TBin? }

  function Tightness(t: Tok): nat
    requires Joins(t)
  { match t case TLor => LOR_RANK case TLan => LAN_RANK case TBin(op) => OpRank(op) }

  function Joined(t: Tok, a: Expr, b: Expr): Expr
    requires Joins(t)
  { match t case TLor => Lor(a, b) case TLan => Lan(a, b) case TBin(op) => Binary(op, a, b) }

  /** Operands and the operators between them. An operand is a name, a constant, or one with prefix or postfix
      operators. */
  predicate Chain(xs: seq<Expr>, ts: seq<Tok>) {
    |xs| == |ts| + 1 && (forall x :: x in xs ==> Rank(x) >= PREFIX) && forall t :: t in ts ==> Joins(t)
  }

  /** The chain as it is written. */
  function Written(xs: seq<Expr>, ts: seq<Tok>): seq<Tok>
    requires |xs| == |ts| + 1
    decreases |ts|
  {
    if ts == [] then Body(xs[0]) else Body(xs[0]) + [ts[0]] + Written(xs[1..], ts[1..])
  }

  /** The last of the operators that bind least. */
  function Loosest(ts: seq<Tok>): (k: nat)
    requires ts != [] && forall t :: t in ts ==> Joins(t)
    ensures k < |ts|
    ensures forall j :: 0 <= j < k ==> Tightness(ts[j]) >= Tightness(ts[k])
    ensures forall j :: k < j < |ts| ==> Tightness(ts[j]) > Tightness(ts[k])
  {
    var n := |ts| - 1;
    if n == 0 then 0
    else
      var k := Loosest(ts[..n]);
      if Tightness(ts[n]) <= Tightness(ts[k]) then n else k
  }

  /** What the chain means: the last of the operators that bind least is applied last, to what the chains on its two
      sides mean. */
  function Reading(xs: seq<Expr>, ts: seq<Tok>): Expr
    requires Chain(xs, ts)
    decreases |ts|
  {
    if ts == [] then xs[0]
    else
      var k := Loosest(ts);
      Joined(ts[k], Reading(xs[..k + 1], ts[..k]), Reading(xs[k + 1..], ts[k + 1..]))
  }

  lemma {:induction false} WrittenSplit(xs: seq<Expr>, ts: seq<Tok>, k: nat)
    requires |xs| == |ts| + 1 && k < |ts|
    ensures Written(xs, ts) == Written(xs[..k + 1], ts[..k]) + [ts[k]] + Written(xs[k + 1..], ts[k + 1..])
    decreases k
  {
    hide Body;
    if k > 0 {
      WrittenSplit(xs[1..], ts[1..], k - 1);
      assert xs[1..][..k] == xs[..k + 1][1..] && ts[1..][..k - 1] == ts[..k][1..];
      assert xs[1..][k..] == xs[k + 1..] && ts[1..][k..] == ts[k + 1..] && ts[1..][k - 1] == ts[k];
    } else {
      assert xs[..1] == [xs[0]] && ts[..0] == [];
    }
  }

  lemma PrintJoined(t: Tok, a: Expr, b: Expr, k: nat)
    requires Joins(t) && k <= Tightness(t)
    ensures Print(Joined(t, a, b), k) == Print(a, Tightness(t)) + ([t] + Print(b, Tightness(t) + 1))
  {
    hide Body; hide Print; hide Tightness; hide Joined;
    BodyJoined(t, a, b);
    Unbracketed(Joined(t, a, b), k);
  }

  lemma BodyJoined(t: Tok, a: Expr, b: Expr)
    requires Joins(t)
    ensures Body(Joined(t, a, b)) == Print(a, Tightness(t)) + ([t] + Print(b, Tightness(t) + 1))
    ensures Rank(Joined(t, a, b)) == Tightness(t)
  {
    hide Body; hide Print; hide OpRank;
    match t
    case TLor => BodyLor(a, b);
    case TLan => BodyLan(a, b);
    case TBin(op) => BodyBinary(op, a, b);
  }

  lemma BodyLor(a: Expr, b: Expr)
    ensures Body(Lor(a, b)) == Print(a, LOR_RANK) + ([TLor] + Print(b, LOR_RANK + 1))
  {
    hide Print;
  }

  lemma BodyLan(a: Expr, b: Expr)
    ensures Body(Lan(a, b)) == Print(a, LAN_RANK) + ([TLan] + Print(b, LAN_RANK + 1))
  {
    hide Print;
  }

  lemma BodyBinary(op: BinOp, a: Expr, b: Expr)
    ensures Body(Binary(op, a, b)) == Print(a, OpRank(op)) + ([TBin(op)] + Print(b, OpRank(op) + 1))
  {
    hide Print;
  }

  lemma OfChain(xs: seq<Expr>, ts: seq<Tok>, k: nat)
    requires Chain(xs, ts) && k < |ts|
    ensures Chain(xs[..k + 1], ts[..k]) && Chain(xs[k + 1..], ts[k + 1..])
  {}

  /** A chain is the printed form of its reading: no parenthesis is needed. */
  lemma {:induction false} WrittenIsPrinted(xs: seq<Expr>, ts: seq<Tok>, r: nat)
    requires Chain(xs, ts) && r <= PREFIX && forall t :: t in ts ==> Tightness(t) >= r
    ensures Print(Reading(xs, ts), r) == Written(xs, ts)
    decreases |ts|
  {
    hide Body; hide Rank; hide Joined; hide Print; hide Tightness; hide Loosest;
    if ts == [] {
      Unbracketed(xs[0], r);
    } else {
      var k := Loosest(ts);
      OfChain(xs, ts, k);
      LoosestSides(ts);
      WrittenIsPrinted(xs[..k + 1], ts[..k], Tightness(ts[k]));
      WrittenIsPrinted(xs[k + 1..], ts[k + 1..], Tightness(ts[k]) + 1);
      JoinSides(xs, ts, k, r);
    }
  }

  lemma LoosestSides(ts: seq<Tok>)
    requires ts != [] && forall t :: t in ts ==> Joins(t)
    ensures var k := Loosest(ts);
            && Tightness(ts[k]) < PREFIX && (forall t :: t in ts[..k] ==> Tightness(t) >= Tightness(ts[k]))
            && forall t :: t in ts[k + 1..] ==> Tightness(t) > Tightness(ts[k])
  {
    TightAtMost(ts[Loosest(ts)]);
    hide Tightness;
  }

  lemma JoinSides(xs: seq<Expr>, ts: seq<Tok>, k: nat, r: nat)
    requires Chain(xs, ts) && ts != [] && k == Loosest(ts) && r <= Tightness(ts[k])
    requires Chain(xs[..k + 1], ts[..k]) && Chain(xs[k + 1..], ts[k + 1..])
    requires Print(Reading(xs[..k + 1], ts[..k]), Tightness(ts[k])) == Written(xs[..k + 1], ts[..k])
    requires Print(Reading(xs[k + 1..], ts[k + 1..]), Tightness(ts[k]) + 1) == Written(xs[k + 1..], ts[k + 1..])
    ensures Print(Reading(xs, ts), r) == Written(xs, ts)
  {
    hide Body; hide Rank; hide Joined; hide Print; hide OpRank; hide Written; hide Tightness; hide Loosest;
    WrittenSplit(xs, ts, k);
    PrintJoined(ts[k], Reading(xs[..k + 1], ts[..k]), Reading(xs[k + 1..], ts[k + 1..]), r);
  }

  lemma Unbracketed(x: Expr, r: nat)
    requires r <= Rank(x)
    ensures Print(x, r) == Body(x)
  {}

  lemma TightAtMost(t: Tok)
    requires Joins(t)
    ensures Tightness(t) < PREFIX
  {}

  /** Every chain is read as it means, however long it is. */
  lemma ChainRead(xs: seq<Expr>, ts: seq<Tok>)
    requires Chain(xs, ts)
    ensures TreeList(Written(xs, ts), 0) == Some([Reading(xs, ts)])
  {
    hide TreeList; hide Written; hide Reading; hide Print;
    var e := Reading(xs, ts);
    WrittenIsPrinted(xs, ts, ANY);
    var toks := Written(xs, ts);
    assert PrintList([e]) == toks;
    assert toks[0..|toks|] == toks;
    ListInverts(toks, 0, [e]);
  }

  /** `x t y u z` is `x t (y u z)` exactly when `u` binds tighter than `t`, and `(x t y) u z` otherwise. */
  lemma TwoOperators(x: Expr, t: Tok, y: Expr, u: Tok, z: Expr)
    requires Joins(t) && Joins(u) && Rank(x) >= PREFIX && Rank(y) >= PREFIX && Rank(z) >= PREFIX
    ensures TreeList(Body(x) + [t] + Body(y) + [u] + Body(z), 0) ==
            Some([if Tightness(u) > Tightness(t) then Joined(t, x, Joined(u, y, z)) else Joined(u, Joined(t, x, y), z)])
  {
    hide TreeList; hide Body; hide Rank; hide Tightness; hide Joined;
    var xs, ts := [x, y, z], [t, u];
    ChainRead(xs, ts);
    TwoWritten(x, t, y, u, z);
    if Tightness(u) > Tightness(t) {
      assert Loosest(ts) == 0;
      assert xs[..1] == [x] && xs[1..] == [y, z] && ts[1..] == [u] && ts[..0] == [];
      OneReading(y, u, z);
    } else {
      assert Loosest(ts) == 1;
      assert xs[..2] == [x, y] && xs[2..] == [z] && ts[..1] == [t] && ts[2..] == [];
      OneReading(x, t, y);
    }
  }

  lemma OneReading(x: Expr, t: Tok, y: Expr)
    requires Joins(t) && Rank(x) >= PREFIX && Rank(y) >= PREFIX
    ensures Chain([x, y], [t]) && Reading([x, y], [t]) == Joined(t, x, y)
  {
    hide Rank; hide Tightness; hide Joined;
    assert [x, y][..1] == [x] && [x, y][1..] == [y] && [t][..0] == [] && [t][1..] == [];
    assert Loosest([t]) == 0;
  }

  lemma TwoWritten(x: Expr, t: Tok, y: Expr, u: Tok, z: Expr)
    ensures Written([x, y, z], [t, u]) == Body(x) + [t] + Body(y) + [u] + Body(z)
  {
    hide Body;
    assert [x, y, z][1..] == [y, z] && [t, u][1..] == [u] && [y, z][1..] == [z] && [u][1..] == [];
    assert Written([y, z], [u]) == Body(y) + [u] + Body(z);
  }
}
