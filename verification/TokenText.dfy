/** Names and roles of credentials: trimming, lower-casing and the bounded, duplicate-free role list.
    Strings are byte strings; letter case and white space are those of ASCII. */
module TokenText {
  import opened Bytes

  type Str = seq<byte>

  const MAX_ROLES := 16
  const MAX_ROLE_LEN := 128

  predicate IsSpace(c: byte) { 9 <= c <= 13 || c == 32 }

  function Lower(c: byte): byte { if 0x41 <= c <= 0x5a then c + 32 else c }

  function ToLower(s: Str): (r: Str)
    ensures |r| == |s| && forall i :: 0 <= i < |s| ==> r[i] == Lower(s[i])
  {
    seq(|s|, i requires 0 <= i < |s| => Lower(s[i]))
  }

  function TrimLeft(s: Str): (r: Str)
    ensures |r| <= |s| && (r != [] ==> !IsSpace(r[0]))
  {
    if s != [] && IsSpace(s[0]) then TrimLeft(s[1..]) else s
  }

  function TrimRight(s: Str): (r: Str)
    ensures r <= s && (r != [] ==> !IsSpace(r[|r| - 1]))
  {
    if s != [] && IsSpace(s[|s| - 1]) then TrimRight(s[..|s| - 1]) else s
  }

  function Trim(s: Str): (r: Str)
    ensures |r| <= |s| && (r != [] ==> !IsSpace(r[0]) && !IsSpace(r[|r| - 1]))
  {
    TrimRight(TrimLeft(s))
  }

  /** normToken */
  function Norm(s: Str): (r: Str)
    ensures |r| <= |s|
  {
    ToLower(Trim(s))
  }

  lemma NormFixed(s: Str)
    ensures Norm(Norm(s)) == Norm(s)
  {
    var r := Norm(s);
    if r != [] {
      assert !IsSpace(r[0]) && !IsSpace(r[|r| - 1]);
    }
    assert Trim(r) == r;
  }

  predicate Normal(s: Str) { Norm(s) == s }

  predicate NoDuplicates(ss: seq<Str>)
  {
    forall i, j :: 0 <= i < j < |ss| ==> ss[i] != ss[j]
  }

  predicate GoodRole(r: Str) { r != [] && |r| <= MAX_ROLE_LEN && Normal(r) }

  /** A role list a credential can carry. */
  predicate GoodRoles(rs: seq<Str>)
  {
    |rs| <= MAX_ROLES && NoDuplicates(rs) && forall i :: 0 <= i < |rs| ==> GoodRole(rs[i])
  }

  /** The normalised members of a list, first occurrences in order. */
  function Dedup(rs: seq<Str>): (out: seq<Str>)
  {
    if rs == [] then []
    else
      var init, r := Dedup(rs[..|rs| - 1]), Norm(rs[|rs| - 1]);
      if r in init then init else init + [r]
  }

  predicate RolesAcceptable(rs: seq<Str>)
  {
    |rs| <= MAX_ROLES && forall i :: 0 <= i < |rs| ==> Norm(rs[i]) != [] && |Norm(rs[i])| <= MAX_ROLE_LEN
  }

  lemma {:induction false} DedupFacts(rs: seq<Str>)
    ensures NoDuplicates(Dedup(rs)) && |Dedup(rs)| <= |rs|
    ensures forall x :: x in Dedup(rs) <==> exists i :: 0 <= i < |rs| && Norm(rs[i]) == x
  {
    hide Norm;
    if rs != [] {
      var init := rs[..|rs| - 1];
      DedupFacts(init);
      forall x ensures x in Dedup(rs) <==> exists i :: 0 <= i < |rs| && Norm(rs[i]) == x {
        if x in Dedup(rs) {
          if x in Dedup(init) {
            var i :| 0 <= i < |init| && Norm(init[i]) == x;
            assert Norm(rs[i]) == x;
          } else {
            assert Norm(rs[|rs| - 1]) == x;
          }
        }
        if i :| 0 <= i < |rs| && Norm(rs[i]) == x {
          if i < |rs| - 1 { assert Norm(init[i]) == x; }
        }
      }
    }
  }

  /** A good list is its own normal form. */
  lemma {:induction false} DedupFixed(rs: seq<Str>)
    requires GoodRoles(rs)
    ensures RolesAcceptable(rs) && Dedup(rs) == rs
  {
    hide Norm;
    if rs != [] {
      var init := rs[..|rs| - 1];
      DedupFixed(init);
      assert rs == init + [rs[|rs| - 1]];
      assert rs[|rs| - 1] !in init;
    }
  }

  lemma DedupGood(rs: seq<Str>)
    requires RolesAcceptable(rs)
    ensures GoodRoles(Dedup(rs))
  {
    hide Norm;
    var out := Dedup(rs);
    DedupFacts(rs);
    forall i | 0 <= i < |out| ensures GoodRole(out[i]) {
      assert out[i] in out;
      var k :| 0 <= k < |rs| && Norm(rs[k]) == out[i];
      NormFixed(rs[k]);
    }
  }

  /** normTokenRoles: refuse more than sixteen, an empty or an over-long name; drop repeats. */
  method NormTokenRoles(rs: seq<Str>) returns (r: Option<seq<Str>>)
    ensures r == if RolesAcceptable(rs) then Some(Dedup(rs)) else None
    ensures r.Some? ==> GoodRoles(r.value)
  {
    hide Norm;
    if |rs| > MAX_ROLES { return None; }
    var out, seen: set<Str> := [], {};
    for i := 0 to |rs|
      invariant out == Dedup(rs[..i]) && (forall x :: x in seen <==> x in out)
      invariant forall k :: 0 <= k < i ==> Norm(rs[k]) != [] && |Norm(rs[k])| <= MAX_ROLE_LEN
    {
      var name := Norm(rs[i]);
      if name == [] || |name| > MAX_ROLE_LEN { return None; }
      assert rs[..i + 1][..i] == rs[..i];
      if name !in seen {
        seen := seen + {name};
        out := out + [name];
      }
    }
    assert rs[..|rs|] == rs;
    DedupGood(rs);
    return Some(out);
  }
}
