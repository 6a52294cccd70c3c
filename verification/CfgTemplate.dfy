/** CfgExpandTemplate: a single pass over a template that replaces ${KEY} by the raw value of KEY. */
module CfgTemplate {
  import opened Bytes
  import opened CfgFormat
  import opened CfgProfile

  const DOLLAR: byte := 36
  const OPEN: byte := 123
  const CLOSE: byte := 125
  const RESOLVED_MAX: nat := 511   // sizeof(resolved) - 1

  // ---- lookup --------------------------------------------------------------

  /** The bytes up to the first NUL: what strlen, strcmp and strdup see. */
  function CStr(s: seq<byte>): (r: seq<byte>)
    ensures r <= s && 0 !in r
  {
    if s == [] || s[0] == 0 then [] else [s[0]] + CStr(s[1..])
  }

  /** The first entry with exactly this name. */
  function Find(es: seq<Entry>, name: seq<byte>): Option<Entry> {
    if es == [] then None
    else if CStr(es[0].name) == name then Some(es[0])
    else Find(es[1..], name)
  }

  /** What a reference contributes: nothing when the name is missing or has no value. */
  function ValueOf(es: seq<Entry>, name: seq<byte>): seq<byte> {
    var e := Find(es, name);
    if e.None? || e.value.value.None? then [] else e.value.value.value
  }

  /** A C string is all there is before the first NUL. */
  lemma {:induction false} CStrIs(s: seq<byte>)
    ensures CStr(s) <= s && 0 !in CStr(s) && (CStr(s) == s || s[|CStr(s)|] == 0)
  {
    if s != [] && s[0] != 0 { CStrIs(s[1..]); }
  }

  /** The entry found is the first that has the name, and there is none exactly when no entry has it. */
  lemma {:induction false} FindIs(es: seq<Entry>, name: seq<byte>, i: nat)
    requires i <= |es| && forall j :: 0 <= j < i ==> CStr(es[j].name) != name
    ensures i < |es| && CStr(es[i].name) == name ==> Find(es, name) == Some(es[i])
    ensures i == |es| ==> Find(es, name) == None
  {
    if i > 0 { FindIs(es[1..], name, i - 1); }
  }

  /** What `${name}` gives: the bytes of the first entry with the name, and nothing when it has no value or there is
      no such entry. */
  lemma ValueIs(es: seq<Entry>, name: seq<byte>, i: nat)
    requires i <= |es| && (forall j :: 0 <= j < i ==> CStr(es[j].name) != name)
    requires i < |es| ==> CStr(es[i].name) == name
    ensures ValueOf(es, name) == if i == |es| || es[i].value.None? then [] else es[i].value.value
  {
    FindIs(es, name, i);
  }

  /** Once a name is found, it is found with the same contents whatever is appended later. */
  lemma {:induction false} FindIsStable(es: seq<Entry>, more: seq<Entry>, name: seq<byte>)
    requires Find(es, name).Some?
    ensures Find(es + more, name) == Find(es, name)
  {
    assert (es + more)[0] == es[0] && (es + more)[1..] == es[1..] + more;
    if CStr(es[0].name) != name {
      FindIsStable(es[1..], more, name);
    }
  }

  // ---- expansion -----------------------------------------------------------

  /** The index of the first close brace at or after `j`, or the end of the template. */
  function CloseFrom(s: seq<byte>, j: nat): (r: nat)
    requires j <= |s|
    ensures j <= r <= |s| && (r < |s| ==> s[r] == CLOSE)
    ensures forall k :: j <= k < r ==> s[k] != CLOSE
    decreases |s| - j
  {
    if j == |s| || s[j] == CLOSE then j else CloseFrom(s, j + 1)
  }

  predicate OpensRef(s: seq<byte>) {
    |s| >= 2 && s[0] == DOLLAR && s[1] == OPEN
  }

  /** A closed reference at the front of `s`. */
  predicate HasRef(s: seq<byte>) {
    OpensRef(s) && CloseFrom(s, 2) < |s|
  }

  function Name(s: seq<byte>): seq<byte>
    requires HasRef(s)
  {
    s[2..CloseFrom(s, 2)]
  }

  function AfterRef(s: seq<byte>): (r: seq<byte>)
    requires HasRef(s)
    ensures |r| < |s|
  {
    s[CloseFrom(s, 2) + 1..]
  }

  /** The expansion with no bound on its length. */
  function Expand(es: seq<Entry>, s: seq<byte>): seq<byte>
    decreases |s|
  {
    if s == [] then []
    else if HasRef(s) then ValueOf(es, Name(s)) + Expand(es, AfterRef(s))
    else [s[0]] + Expand(es, s[1..])
  }

  lemma {:induction false} CloseFromShift(s: seq<byte>, t: seq<byte>, j: nat)
    requires j <= |s| && CloseFrom(s, j) < |s|
    ensures CloseFrom(s + t, j) == CloseFrom(s, j)
    decreases |s| - j
  {
    assert (s + t)[j] == s[j];
    if s[j] != CLOSE { CloseFromShift(s, t, j + 1); }
  }

  /** Text substituted for a reference is not looked at again, even when it looks like a reference. */
  lemma ReferenceIsVerbatim(es: seq<Entry>, name: seq<byte>)
    requires CLOSE !in name
    ensures Expand(es, [DOLLAR, OPEN] + name + [CLOSE]) == ValueOf(es, name)
  {
    var s := [DOLLAR, OPEN] + name + [CLOSE];
    assert s[|s| - 1] == CLOSE;
    forall k | 2 <= k < |s| - 1
      ensures s[k] != CLOSE
    {
      assert s[k] == name[k - 2] && name[k - 2] in name;
    }
    assert CloseFrom(s, 2) == |s| - 1;
    assert Name(s) == name && AfterRef(s) == [];
    assert ValueOf(es, name) + [] == ValueOf(es, name);
  }

  /** A reference, up to its first close brace, is replaced by its value, and the scan goes on behind it. */
  lemma ExpandReference(es: seq<Entry>, name: seq<byte>, rest: seq<byte>)
    requires 125 !in name
    ensures Expand(es, [36, 123] + name + [125] + rest) == ValueOf(es, name) + Expand(es, rest)
  {
    var s := [DOLLAR, OPEN] + name + [CLOSE];
    var t := s + rest;
    assert t == [36, 123] + name + [125] + rest;
    forall k | 2 <= k < |s| - 1
      ensures t[k] != CLOSE
    {
      assert t[k] == name[k - 2] && name[k - 2] in name;
    }
    assert t[|s| - 1] == CLOSE && CloseFrom(t, 2) == |s| - 1;
    assert Name(t) == name && AfterRef(t) == rest;
  }

  /** A byte that opens no closed reference stands for itself. */
  lemma ExpandLiteral(es: seq<Entry>, c: byte, rest: seq<byte>)
    requires c != 36 || rest == [] || rest[0] != 123 || 125 !in rest
    ensures Expand(es, []) == [] && Expand(es, [c] + rest) == [c] + Expand(es, rest)
  {
    var s := [c] + rest;
    assert s[1..] == rest;
    if rest != [] {
      var j := CloseFrom(s, 2);
      assert j < |s| ==> rest[j - 1] == 125 && 125 in rest;
    }
  }

  /** So text without a close brace, open references and all, expands to itself. */
  lemma {:induction false} ExpandUnclosed(es: seq<Entry>, s: seq<byte>)
    requires 125 !in s
    ensures Expand(es, s) == s
  {
    if s != [] {
      assert s == [s[0]] + s[1..];
      ExpandLiteral(es, s[0], s[1..]);
      ExpandUnclosed(es, s[1..]);
    }
  }

  /** Scanning `s` comes to a `${` that no brace closes. */
  predicate LeftOpen(s: seq<byte>)
    decreases |s|
  {
    if s == [] then false
    else if HasRef(s) then LeftOpen(AfterRef(s))
    else OpensRef(s) || LeftOpen(s[1..])
  }

  predicate JoinOpens(a: seq<byte>, b: seq<byte>) {
    a != [] && b != [] && a[|a| - 1] == DOLLAR && b[0] == OPEN
  }

  lemma RefOfConcat(a: seq<byte>, b: seq<byte>)
    requires HasRef(a)
    ensures HasRef(a + b) && Name(a + b) == Name(a) && AfterRef(a + b) == AfterRef(a) + b
  {
    CloseFromShift(a, b, 2);
  }

  /** Expansion distributes over concatenation when no reference is left open in the first part and the
      join does not make one. */
  lemma {:induction false} ExpandConcat(es: seq<Entry>, a: seq<byte>, b: seq<byte>)
    requires !LeftOpen(a) && !JoinOpens(a, b)
    ensures Expand(es, a + b) == Expand(es, a) + Expand(es, b)
    decreases |a|
  {
    if a == [] {
      assert a + b == b;
    } else if HasRef(a) {
      RefOfConcat(a, b);
      ExpandConcat(es, AfterRef(a), b);
      ConcatAssoc(ValueOf(es, Name(a)), Expand(es, AfterRef(a)), Expand(es, b));
    } else {
      assert (a + b)[0] == a[0] && (a + b)[1..] == a[1..] + b;
      assert !OpensRef(a + b);
      ExpandConcat(es, a[1..], b);
      ConcatAssoc([a[0]], Expand(es, a[1..]), Expand(es, b));
    }
  }

  /** Neither condition can be dropped: an open reference in the first part, or a join that makes `${`, can
      complete into a reference that expands differently. */
  lemma ConcatNeedsBoth()
    ensures exists es: seq<Entry>, a: seq<byte>, b: seq<byte> ::
      LeftOpen(a) && !JoinOpens(a, b) && Expand(es, a + b) != Expand(es, a) + Expand(es, b)
    ensures exists es: seq<Entry>, a: seq<byte>, b: seq<byte> ::
      !LeftOpen(a) && JoinOpens(a, b) && Expand(es, a + b) != Expand(es, a) + Expand(es, b)
  {
    var open: seq<byte>, close: seq<byte> := [DOLLAR, OPEN], [CLOSE];
    var dollar: seq<byte>, braces: seq<byte> := [DOLLAR], [OPEN, CLOSE];
    ReferenceIsVerbatim([], []);
    assert [DOLLAR, OPEN] + [] + [CLOSE] == open + close == dollar + braces;
    assert Expand([], open + close) == [] && Expand([], dollar + braces) == [];
    assert !HasRef(open) && Expand([], open)[0] == DOLLAR;
    assert !HasRef(dollar) && !LeftOpen(dollar[1..]) && Expand([], dollar)[0] == DOLLAR;
    assert LeftOpen(open) && !JoinOpens(open, close) &&
           Expand([], open + close) != Expand([], open) + Expand([], close);
    assert !LeftOpen(dollar) && JoinOpens(dollar, braces) &&
           Expand([], dollar + braces) != Expand([], dollar) + Expand([], braces);
  }

  /** Every closed reference of the template names an entry. */
  predicate Resolves(es: seq<Entry>, s: seq<byte>)
    decreases |s|
  {
    if s == [] then true
    else if HasRef(s) then Find(es, Name(s)).Some? && Resolves(es, AfterRef(s))
    else Resolves(es, s[1..])
  }

  /** A template whose references all resolve expands to the same bytes whatever is appended later. */
  lemma {:induction false} ExpandIsStable(es: seq<Entry>, more: seq<Entry>, s: seq<byte>)
    requires Resolves(es, s)
    ensures Resolves(es + more, s) && Expand(es + more, s) == Expand(es, s)
    decreases |s|
  {
    if s == [] {
    } else if HasRef(s) {
      FindIsStable(es, more, Name(s));
      ExpandIsStable(es, more, AfterRef(s));
    } else {
      ExpandIsStable(es, more, s[1..]);
    }
  }

  // ---- the loops -----------------------------------------------------------

  /** find_entry: the first match down the list. */
  method FindEntry(p: CfgProfile, name: seq<byte>) returns (e: CfgEntry?)
    requires p.Valid()
    ensures e == null <==> Find(p.entries, name).None?
    ensures e != null ==> e in p.list && Find(p.entries, name) == Some(Entry(e.name, e.kind, e.size, e.value))
    ensures e != null ==> CStr(e.name) == name
  {
    e := p.head;
    ghost var k := 0;
    while e != null
      invariant k <= |p.list| && e == if k < |p.list| then p.list[k] else null
      invariant Find(p.entries, name) == Find(p.entries[k..], name)
      decreases |p.list| - k
    {
      assert e.Holds(p.entries[k], p.blocks[k]);
      if CStr(e.name) == name { return; }
      e, k := e.next, k + 1;
    }
  }

  /** A capped prefix with more to come is capped the same whenever the cap is applied. */
  lemma TakeTwice(done: seq<byte>, add: seq<byte>, rest: seq<byte>, n: nat)
    ensures Take(Take(done + add, n) + rest, n) == Take(done + (add + rest), n)
  {
    ConcatAssoc(done, add, rest);
  }

  /** The inner copy: as much of the referenced value as still fits. */
  method CopyReference(p: CfgProfile, name: seq<byte>, resolved: array<byte>, w0: nat) returns (w: nat)
    requires p.Valid() && resolved.Length == RESOLVED_MAX + 1 && w0 <= RESOLVED_MAX
    modifies resolved
    ensures w <= RESOLVED_MAX && resolved[..w] == Take(old(resolved[..w0]) + ValueOf(p.entries, name), RESOLVED_MAX)
  {
    w := w0;
    var ref := FindEntry(p, name);
    ghost var done, v := resolved[..w0], ValueOf(p.entries, name);
    if ref != null && ref.value.Some? {
      var k := 0;
      while k < |ref.value.value| && w < RESOLVED_MAX
        invariant k <= |v| && w == w0 + k <= RESOLVED_MAX && resolved[..w] == done + v[..k]
      {
        resolved[w] := ref.value.value[k];
        w, k := w + 1, k + 1;
      }
    }
  }

  /** The search for the closing brace of a reference that opens at `i`. */
  method FindClose(s: seq<byte>, i: nat) returns (j: nat)
    requires i + 2 <= |s|
    ensures j == i + CloseFrom(s[i..], 2) && i + 2 <= j <= |s|
  {
    ghost var t := s[i..];
    j := i + 2;
    while j < |s| && s[j] != CLOSE
      invariant i + 2 <= j <= |s| && CloseFrom(t, 2) == CloseFrom(t, j - i)
    {
      assert t[j - i] == s[j];
      j := j + 1;
    }
  }

  /** One more literal byte, under the cap. */
  lemma LiteralStep(es: seq<Entry>, done: seq<byte>, t: seq<byte>)
    requires t != [] && !HasRef(t)
    ensures Take(done + Expand(es, t), RESOLVED_MAX) == Take((done + [t[0]]) + Expand(es, t[1..]), RESOLVED_MAX)
  {
    ConcatAssoc(done, [t[0]], Expand(es, t[1..]));
  }

  /** One more reference, under the cap. */
  lemma ReferenceStep(es: seq<Entry>, done: seq<byte>, t: seq<byte>)
    requires HasRef(t)
    ensures Take(done + Expand(es, t), RESOLVED_MAX)
            == Take(Take(done + ValueOf(es, Name(t)), RESOLVED_MAX) + Expand(es, AfterRef(t)), RESOLVED_MAX)
  {
    TakeTwice(done, ValueOf(es, Name(t)), Expand(es, AfterRef(t)), RESOLVED_MAX);
  }

  /** CfgExpandTemplate up to `resolved`: the first 511 bytes of the unbounded expansion, then a NUL. */
  method ExpandTemplate(p: CfgProfile, e: CfgEntry?) returns (status: int, resolved: array<byte>, w: nat)
    requires p.Valid()
    ensures fresh(resolved) && resolved.Length == 512 && w <= 511 && resolved[w] == 0
    ensures if e == null || e.value.None? then status == -6 && w == 0
            else status == 0 && resolved[..w] == Take(Expand(p.entries, e.value.value), 511)
  {
    hide Expand, CloseFrom, ValueOf, Take, CfgProfile.Chain, CfgProfile.Contents;
    resolved := new byte[RESOLVED_MAX + 1](_ => 0);
    w := 0;
    if e == null || e.value.None? { return CFG_EIO, resolved, 0; }
    var s := e.value.value;
    ghost var es, whole := p.entries, Take(Expand(p.entries, s), RESOLVED_MAX);
    assert s[0..] == s && resolved[..0] + Expand(es, s) == Expand(es, s);
    var i := 0;
    while i < |s| && w < RESOLVED_MAX
      invariant i <= |s| && w <= RESOLVED_MAX
      invariant Take(resolved[..w] + Expand(es, s[i..]), RESOLVED_MAX) == whole
    {
      ghost var t := s[i..];
      if s[i] == DOLLAR && i + 1 < |s| && s[i + 1] == OPEN {
        var j := FindClose(s, i);
        if j < |s| {
          assert HasRef(t) && Name(t) == s[i + 2..j] && AfterRef(t) == s[j + 1..];
          ReferenceStep(es, resolved[..w], t);
          w := CopyReference(p, s[i + 2..j], resolved, w);
          i := j + 1;
          continue;
        }
      }
      LiteralStep(es, resolved[..w], t);
      assert t[1..] == s[i + 1..];
      ghost var done := resolved[..w];
      resolved[w] := s[i];
      w, i := w + 1, i + 1;
      assert resolved[..w] == done + [t[0]];
    }
    ExpandDone(es, resolved[..w], s[i..]);
    resolved[w] := 0;
    assert resolved[..w] == whole;
    return CFG_OK, resolved, w;
  }

  /** When the template is used up or the buffer is full, what has been written is the capped expansion. */
  lemma ExpandDone(es: seq<Entry>, done: seq<byte>, t: seq<byte>)
    requires |done| <= RESOLVED_MAX && (t == [] || |done| == RESOLVED_MAX)
    ensures Take(done + Expand(es, t), RESOLVED_MAX) == done
  {
  }
}
