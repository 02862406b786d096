/** Role templates of group mappings: literal text with references ${n} to the groups of a match. */
module RoleTemplate {
  import opened Bytes
  import opened TokenText

  const DOLLAR: byte := 0x24
  const OPEN: byte := 0x7b
  const CLOSE: byte := 0x7d

  // ---- numbers ----

  predicate IsDigit(c: byte) { 0x30 <= c <= 0x39 }

  predicate AllDigits(s: Str) { forall i :: 0 <= i < |s| ==> IsDigit(s[i]) }

  function Value(s: Str): nat
    requires AllDigits(s)
  {
    if s == [] then 0 else 10 * Value(s[..|s| - 1]) + (s[|s| - 1] as int - 0x30)
  }

  /** strconv.Atoi: an optional sign, digits, and a value of 64 bits. */
  function Atoi(s: Str): Option<int>
  {
    var signed := s != [] && (s[0] == 0x2b || s[0] == 0x2d);
    var digits := if signed then s[1..] else s;
    if digits == [] || !AllDigits(digits) then None
    else
      var n: int := if signed && s[0] == 0x2d then 0 - Value(digits) else Value(digits);
      if FitsI64(n) then Some(n) else None
  }

  function Index(s: Str, c: byte): (r: Option<nat>)
    ensures r.Some? ==> r.value < |s| && s[r.value] == c && c !in s[..r.value]
    ensures r.None? ==> c !in s
  {
    if s == [] then None
    else if s[0] == c then Some(0)
    else match Index(s[1..], c) case None => None case Some(i) => Some(i + 1)
  }

  // ---- meaning ----

  datatype Piece = Lit(c: byte) | Ref(n: nat)

  predicate Opens(s: Str) { |s| >= 2 && s[0] == DOLLAR && s[1] == OPEN }

  /** The reference at the head of s and the text behind it. */
  function Reference(s: Str): (r: Option<(nat, Str)>)
    requires Opens(s)
    ensures r.Some? ==> |r.value.1| < |s|
  {
    match Index(s[2..], CLOSE)
    case None => None
    case Some(end) =>
      match Atoi(s[2..2 + end])
      case None => None
      case Some(n) => if n < 0 then None else Some((n, s[2 + end + 1..]))
  }

  function Parse(s: Str): Option<seq<Piece>>
    decreases |s|
  {
    if s == [] then Some([])
    else if Opens(s) then
      match Reference(s)
      case None => None
      case Some(r) => (match Parse(r.1) case None => None case Some(ps) => Some([Ref(r.0)] + ps))
    else match Parse(s[1..]) case None => None case Some(ps) => Some([Lit(s[0])] + ps)
  }

  predicate Within(ps: seq<Piece>, groups: nat)
  {
    forall i :: 0 <= i < |ps| && ps[i].Ref? ==> ps[i].n < groups
  }

  function Render(ps: seq<Piece>, sub: seq<Str>): Str
    requires Within(ps, |sub|)
  {
    if ps == [] then [] else (if ps[0].Lit? then [ps[0].c] else sub[ps[0].n]) + Render(ps[1..], sub)
  }

  // ---- the two scans ----

  /** The validator's scan: every reference is well formed and not above the number of groups of the pattern. */
  predicate Valid(s: Str, numSub: nat)
    decreases |s|
  {
    if s == [] then true
    else if !Opens(s) then Valid(s[1..], numSub)
    else
      match Reference(s)
      case None => false
      case Some(r) => !(r.0 > numSub) && Valid(r.1, numSub)
  }

  function Prepend(a: Str, o: Option<Str>): Option<Str> { if o.None? then None else Some(a + o.value) }

  /** The expander's scan: a reference must index the groups of the match, the whole match among them. */
  function Expansion(s: Str, sub: seq<Str>): Option<Str>
    decreases |s|
  {
    if s == [] then Some([])
    else if !Opens(s) then Prepend([s[0]], Expansion(s[1..], sub))
    else
      match Reference(s)
      case None => None
      case Some(r) => if r.0 >= |sub| then None else Prepend(sub[r.0], Expansion(r.1, sub))
  }

  /** The validator accepts exactly the templates whose references parse and exist. */
  lemma {:induction false} ValidMeans(s: Str, numSub: nat)
    ensures Valid(s, numSub) <==> Parse(s).Some? && Within(Parse(s).value, numSub + 1)
    decreases |s|
  {
    hide Within, Reference;
    if s == [] {
      NothingWithin(numSub + 1);
    } else if !Opens(s) {
      ValidMeans(s[1..], numSub);
      if Parse(s[1..]).Some? { WithinHead(Lit(s[0]), Parse(s[1..]).value, numSub + 1); }
    } else if Reference(s).Some? {
      var r := Reference(s).value;
      ValidMeans(r.1, numSub);
      if Parse(r.1).Some? { WithinHead(Ref(r.0), Parse(r.1).value, numSub + 1); }
    }
  }

  lemma NothingWithin(groups: nat)
    ensures Within([], groups)
  {
  }

  /** The expander renders the pieces of a template, if they all exist. */
  lemma {:induction false} ExpansionMeans(s: Str, sub: seq<Str>)
    ensures Expansion(s, sub)
            == if Parse(s).Some? && Within(Parse(s).value, |sub|) then Some(Render(Parse(s).value, sub)) else None
    decreases |s|
  {
    hide Within, Reference;
    if s == [] {
      NothingWithin(|sub|);
    } else if !Opens(s) {
      ExpansionMeans(s[1..], sub);
      if Parse(s[1..]).Some? { RenderHead(Lit(s[0]), Parse(s[1..]).value, sub); }
    } else if Reference(s).Some? {
      var r := Reference(s).value;
      ExpansionMeans(r.1, sub);
      if Parse(r.1).Some? { RenderHead(Ref(r.0), Parse(r.1).value, sub); }
    }
  }

  lemma RenderHead(p: Piece, ps: seq<Piece>, sub: seq<Str>)
    ensures Within([p] + ps, |sub|) <==> (p.Ref? ==> p.n < |sub|) && Within(ps, |sub|)
    ensures Within([p] + ps, |sub|) && Within(ps, |sub|)
            ==> Render([p] + ps, sub) == (if p.Lit? then [p.c] else sub[p.n]) + Render(ps, sub)
  {
    WithinHead(p, ps, |sub|);
    assert ([p] + ps)[1..] == ps;
  }

  /** A template accepted when the policy was loaded expands for every match of its pattern, and no other does. */
  lemma {:induction false} AcceptedExpands(tmpl: Str, numSub: nat, sub: seq<Str>)
    requires |sub| == numSub + 1
    ensures Valid(tmpl, numSub) <==> Expansion(tmpl, sub).Some?
    decreases |tmpl|
  {
    hide Reference;
    if tmpl == [] {
    } else if !Opens(tmpl) {
      AcceptedExpands(tmpl[1..], numSub, sub);
    } else if Reference(tmpl).Some? {
      AcceptedExpands(Reference(tmpl).value.1, numSub, sub);
    }
  }

  // ---- the loops ----

  lemma WithinHead(p: Piece, ps: seq<Piece>, groups: nat)
    ensures Within([p] + ps, groups) <==> (p.Ref? ==> p.n < groups) && Within(ps, groups)
  {
    var all := [p] + ps;
    forall i | 0 <= i < |ps| ensures ps[i] == all[i + 1] {}
    if Within(all, groups) {
      forall i | 0 <= i < |ps| && ps[i].Ref? ensures ps[i].n < groups { assert all[i + 1] == ps[i]; }
      assert p.Ref? ==> all[0] == p;
    }
  }

  lemma PrependTwice(a: Str, b: Str, o: Option<Str>)
    ensures Prepend(a, Prepend(b, o)) == Prepend(a + b, o)
  {
    if o.Some? { assert a + (b + o.value) == (a + b) + o.value; }
  }

  lemma ExpansionStep(s: Str, sub: seq<Str>)
    ensures s == [] ==> Expansion(s, sub) == Some([])
    ensures s != [] && !Opens(s) ==> Expansion(s, sub) == Prepend([s[0]], Expansion(s[1..], sub))
    ensures Opens(s) ==> Expansion(s, sub) ==
                         if Reference(s).None? || Reference(s).value.0 >= |sub| then None
                         else Prepend(sub[Reference(s).value.0], Expansion(Reference(s).value.1, sub))
  {
  }

  lemma ReferenceAt(s: Str, i: nat, end: nat)
    requires i + 2 <= |s| && Opens(s[i..]) && Index(s[i + 2..], CLOSE) == Some(end)
    ensures s[i..][2..] == s[i + 2..] && s[i..][2..2 + end] == s[i + 2..i + 2 + end]
            && s[i..][2 + end + 1..] == s[i + 2 + end + 1..]
  {
  }

  /** validateRoleTemplate. */
  method ValidateRoleTemplate(tmpl: Str, numSub: nat) returns (ok: bool)
    ensures ok <==> Valid(tmpl, numSub)
    ensures ok <==> Parse(tmpl).Some? && Within(Parse(tmpl).value, numSub + 1)
  {
    hide Parse, Atoi, Within;
    ValidMeans(tmpl, numSub);
    var i := 0;
    assert tmpl[0..] == tmpl;
    while i < |tmpl|
      invariant 0 <= i <= |tmpl| && (Valid(tmpl, numSub) <==> Valid(tmpl[i..], numSub))
    {
      if tmpl[i] != DOLLAR || i + 1 >= |tmpl| || tmpl[i + 1] != OPEN {
        assert tmpl[i..][1..] == tmpl[i + 1..];
        i := i + 1;
        continue;
      }
      var end := Index(tmpl[i + 2..], CLOSE);
      if end.None? {
        assert tmpl[i..][2..] == tmpl[i + 2..];
        return false;
      }
      ReferenceAt(tmpl, i, end.value);
      var n := Atoi(tmpl[i + 2..i + 2 + end.value]);
      if n.None? || n.value < 0 || n.value > numSub { return false; }
      i := i + 2 + end.value + 1;
    }
    return true;
  }

  predicate HasReference(s: Str) { exists i :: 0 <= i && i + 2 <= |s| && Opens(s[i..]) }

  /** expandRoleTemplate. */
  method ExpandRoleTemplate(tmpl: Str, sub: seq<Str>) returns (r: Option<Str>)
    ensures r == Expansion(tmpl, sub)
  {
    hide Atoi, HasReference, Prepend, Expansion;
    if !HasReference(tmpl) {
      PlainText(tmpl, sub);
      return Some(tmpl);
    }
    var b: Str := [];
    var i := 0;
    assert tmpl[0..] == tmpl;
    PrependNothing(Expansion(tmpl, sub));
    while i < |tmpl|
      invariant 0 <= i <= |tmpl| && Expansion(tmpl, sub) == Prepend(b, Expansion(tmpl[i..], sub))
    {
      PrependFails(b);
      ExpansionStep(tmpl[i..], sub);
      if tmpl[i] == DOLLAR && i + 1 < |tmpl| && tmpl[i + 1] == OPEN {
        var end := Index(tmpl[i + 2..], CLOSE);
        if end.None? {
          assert tmpl[i..][2..] == tmpl[i + 2..];
          return None;
        }
        ReferenceAt(tmpl, i, end.value);
        var n := Atoi(tmpl[i + 2..i + 2 + end.value]);
        if n.None? || n.value < 0 || n.value >= |sub| { return None; }
        PrependTwice(b, sub[n.value], Expansion(tmpl[i + 2 + end.value + 1..], sub));
        b := b + sub[n.value];
        i := i + 2 + end.value + 1;
        continue;
      }
      assert tmpl[i..][1..] == tmpl[i + 1..];
      PrependTwice(b, [tmpl[i]], Expansion(tmpl[i + 1..], sub));
      b := b + [tmpl[i]];
      i := i + 1;
    }
    PrependFails(b);
    ExpansionStep(tmpl[i..], sub);
    return Some(b);
  }

  lemma PrependNothing(o: Option<Str>)
    ensures Prepend([], o) == o
  {
    if o.Some? { assert [] + o.value == o.value; }
  }

  lemma PrependFails(b: Str)
    ensures Prepend(b, None) == None && Prepend(b, Some([])) == Some(b)
  {
    assert b + [] == b;
  }

  lemma {:induction false} PlainText(s: Str, sub: seq<Str>)
    requires !HasReference(s)
    ensures Expansion(s, sub) == Some(s)
  {
    if s != [] {
      assert s[0..] == s;
      forall i | 0 <= i && i + 2 <= |s[1..]| ensures !Opens(s[1..][i..]) {
        assert s[1..][i..] == s[i + 1..];
      }
      PlainText(s[1..], sub);
      assert [s[0]] + s[1..] == s;
    }
  }

  // ---- what holds of them ----

  function Numeral(n: nat): (s: Str)
    ensures s != [] && AllDigits(s) && Value(s) == n
  {
    var d := [(n % 10 + 0x30) as byte];
    if n < 10 then d
    else
      var r := Numeral(n / 10) + d;
      assert r[..|r| - 1] == Numeral(n / 10);
      r
  }

  function Spell(ps: seq<Piece>): Str
  {
    if ps == [] then []
    else (if ps[0].Lit? then [ps[0].c] else [DOLLAR, OPEN] + Numeral(ps[0].n) + [CLOSE]) + Spell(ps[1..])
  }

  /** A dollar sign meant literally is not followed by a brace, and numbers have 64 bits. */
  predicate Spellable(ps: seq<Piece>)
  {
    && (forall i :: 0 <= i < |ps| && ps[i].Ref? ==> ps[i].n < TWO63)
    && (forall i :: 0 <= i < |ps| - 1 && ps[i] == Lit(DOLLAR) ==> ps[i + 1] != Lit(OPEN))
  }

  /** Any list of pieces, spelled with decimal references, is read back piece by piece. */
  lemma {:induction false} ParseSpell(ps: seq<Piece>)
    requires Spellable(ps)
    ensures Parse(Spell(ps)) == Some(ps)
  {
    hide Reference, Spellable, Numeral;
    if ps != [] {
      var tail := Spell(ps[1..]);
      SpellableTail(ps);
      ParseSpell(ps[1..]);
      var s := Spell(ps);
      if ps[0].Ref? {
        ReferenceSpelled(ps[0].n, tail);
        assert s == [DOLLAR, OPEN] + Numeral(ps[0].n) + [CLOSE] + tail;
        assert Opens(s) && Reference(s) == Some((ps[0].n, tail));
        assert ps == [ps[0]] + ps[1..];
      } else {
        LiteralHead(ps);
        assert s == [ps[0].c] + tail;
        assert s[1..] == tail && ps == [ps[0]] + ps[1..];
      }
    }
  }

  lemma SpellableTail(ps: seq<Piece>)
    requires ps != [] && Spellable(ps)
    ensures Spellable(ps[1..]) && (ps[0].Ref? ==> ps[0].n < TWO63)
  {
    var t := ps[1..];
    forall i | 0 <= i < |t| && t[i].Ref? ensures t[i].n < TWO63 { assert t[i] == ps[i + 1]; }
    forall i | 0 <= i < |t| - 1 && t[i] == Lit(DOLLAR)
        ensures t[i + 1] != Lit(OPEN) { assert t[i] == ps[i + 1] && t[i + 1] == ps[i + 2]; }
  }

  lemma LiteralHead(ps: seq<Piece>)
    requires ps != [] && ps[0].Lit? && Spellable(ps)
    ensures !Opens(Spell(ps))
  {
    if |ps| > 1 {
      var next := Spell(ps[1..]);
      assert Spell(ps) == [ps[0].c] + next;
      assert ps[1..][0] == ps[1];
      assert next[0] == if ps[1].Lit? then ps[1].c else DOLLAR;
      assert ps[0] == Lit(DOLLAR) ==> ps[1] != Lit(OPEN);
    }
  }

  lemma ReferenceSpelled(n: nat, tail: Str)
    requires n < TWO63
    ensures var s := [DOLLAR, OPEN] + Numeral(n) + [CLOSE] + tail;
            Opens(s) && Reference(s) == Some((n, tail))
  {
    var d := Numeral(n);
    var s := [DOLLAR, OPEN] + d + [CLOSE] + tail;
    assert s[2..] == d + [CLOSE] + tail;
    IndexAfter(d, CLOSE, tail);
    assert s[2..2 + |d|] == d && s[2 + |d| + 1..] == tail;
    assert IsDigit(d[0]);
  }

  lemma {:induction false} IndexAfter(d: Str, c: byte, tail: Str)
    requires AllDigits(d) && !IsDigit(c)
    ensures Index(d + [c] + tail, c) == Some(|d|)
  {
    if d != [] {
      assert (d + [c] + tail)[1..] == d[1..] + [c] + tail;
      assert IsDigit(d[0]);
      IndexAfter(d[1..], c, tail);
    }
  }
}
