/** `parse_rust_function_name` (function.rs), with the string searches it is made of. */
module NameParser {
  import opened Wrappers

  datatype RustFunctionName =
    | TraitMethod(trait_: string, type_: string, method_: string)
    | StructMethod(type_: string, method_: string)
    | Bare(function_: string)

  datatype ParseError = MalformedMethod(text: string) | MalformedTraitMethod(text: string)

  // ---------- Searching ----------

  predicate OccursAt(s: string, pat: string, i: nat) {
    i + |pat| <= |s| && s[i..i + |pat|] == pat
  }

  ghost predicate Occurs(s: string, pat: string) {
    exists i: nat :: OccursAt(s, pat, i)
  }

  /** The first occurrence of `pat` at or after `from`. */
  function FindFirst(s: string, pat: string, from: nat): (r: Option<nat>)
    requires from <= |s|
    ensures r.None? ==> forall i: nat :: from <= i ==> !OccursAt(s, pat, i)
    ensures r.Some? ==> from <= r.value && OccursAt(s, pat, r.value)
    ensures r.Some? ==> forall i: nat :: from <= i < r.value ==> !OccursAt(s, pat, i)
    decreases |s| - from
  {
    if OccursAt(s, pat, from) then Some(from)
    else if from == |s| then None
    else FindFirst(s, pat, from + 1)
  }

  /** The last occurrence of `pat` at or before `upTo`. */
  function FindLast(s: string, pat: string, upTo: nat): (r: Option<nat>)
    requires upTo <= |s|
    ensures r.None? ==> forall i: nat :: i <= upTo ==> !OccursAt(s, pat, i)
    ensures r.Some? ==> r.value <= upTo && OccursAt(s, pat, r.value)
    ensures r.Some? ==> forall i: nat :: r.value < i <= upTo ==> !OccursAt(s, pat, i)
  {
    if OccursAt(s, pat, upTo) then Some(upTo)
    else if upTo == 0 then None
    else FindLast(s, pat, upTo - 1)
  }

  /** `split_once`: around the first occurrence. */
  function SplitOnce(s: string, pat: string): (r: Option<(string, string)>)
    ensures r.None? <==> !Occurs(s, pat)
    ensures r.Some? ==> s == r.value.0 + pat + r.value.1
    ensures r.Some? ==> forall i: nat :: i < |r.value.0| ==> !OccursAt(s, pat, i)
  {
    match FindFirst(s, pat, 0)
    case None => None
    case Some(i) => Some((s[..i], s[i + |pat|..]))
  }

  /** `rsplit_once`: around the last occurrence. */
  function RsplitOnce(s: string, pat: string): (r: Option<(string, string)>)
    ensures r.None? <==> !Occurs(s, pat)
    ensures r.Some? ==> s == r.value.0 + pat + r.value.1
    ensures r.Some? ==> forall i: nat :: i > |r.value.0| ==> !OccursAt(s, pat, i)
  {
    match FindLast(s, pat, |s|)
    case None => None
    case Some(i) => Some((s[..i], s[i + |pat|..]))
  }

  // ---------- Parsing ----------

  function ParseRustFunctionName(name: string): Result<RustFunctionName, ParseError> {
    if name != [] && name[0] == '<' then
      var rest := name[1..];
      match SplitOnce(rest, " as ")
      case Some((type_, rem)) =>
        (match RsplitOnce(rem, ">::")
         case Some((trait_, method_)) => Ok(TraitMethod(trait_, type_, method_))
         case None => Err(MalformedTraitMethod(rest)))
      case None =>
        (match RsplitOnce(rest, ">::")
         case Some((type_, method_)) => Ok(StructMethod(type_, method_))
         case None => Err(MalformedMethod(rest)))
    else if !(name != [] && name[|name| - 1] == '>') && RsplitOnce(name, "::").Some? then
      var (type_, method_) := RsplitOnce(name, "::").value;
      Ok(StructMethod(type_, method_))
    else
      Ok(Bare(name))
  }

  // ---------- What parsing keeps ----------

  predicate Angled(name: string) {
    name != [] && name[0] == '<'
  }

  /** The text a parsed name stands for; `angled` tells the two shapes of methods apart. */
  function Print(parsed: RustFunctionName, angled: bool): string {
    match parsed
    case TraitMethod(trait_, type_, method_) => "<" + type_ + " as " + trait_ + ">::" + method_
    case StructMethod(type_, method_) => if angled then "<" + type_ + ">::" + method_ else type_ + "::" + method_
    case Bare(function_) => function_
  }

  lemma PrintTrait(t: string, r: string, m: string)
    ensures Print(TraitMethod(r, t, m), true) == "<" + (t + " as " + (r + ">::" + m))
  {
    assert t + " as " + (r + ">::" + m) == t + " as " + r + ">::" + m;
  }

  lemma PrintAngledMethod(t: string, m: string)
    ensures Print(StructMethod(t, m), true) == "<" + (t + ">::" + m)
  {
  }

  /** Parsing is lossless: printing a parsed name gives back the input. */
  lemma ParseIsLossless(name: string)
    ensures var r := ParseRustFunctionName(name);
            r.Ok? ==> Print(r.value, Angled(name)) == name && (r.value.Bare? ==> !Angled(name))
  {
    if Angled(name) {
      assert name == "<" + name[1..];
      match SplitOnce(name[1..], " as ") {
        case Some((type_, rem)) =>
          match RsplitOnce(rem, ">::") {
            case Some((trait_, method_)) => PrintTrait(type_, trait_, method_);
            case None =>
          }
        case None =>
          match RsplitOnce(name[1..], ">::") {
            case Some((type_, method_)) => PrintAngledMethod(type_, method_);
            case None =>
          }
      }
    }
  }

  /** The first " as " of an angled name stands at `j`. */
  ghost predicate FirstAsAt(name: string, j: nat) {
    1 <= j && OccursAt(name, " as ", j) && forall k: nat :: 1 <= k < j ==> !OccursAt(name, " as ", k)
  }

  /** Some ">::" stands after the opening angle and after the first " as ", if there is one. */
  ghost predicate Separated(name: string) {
    exists i: nat :: SeparatedAt(name, i)
  }

  ghost predicate SeparatedAt(name: string, i: nat) {
    1 <= i && OccursAt(name, ">::", i) && forall j: nat :: FirstAsAt(name, j) ==> j + 4 <= i
  }

  /** The error of a name: the text behind the opening angle, as a trait method exactly if " as " shows. */
  ghost predicate FailsWith(name: string, error: ParseError) {
    && Angled(name) && !Separated(name)
    && error == if Occurs(name[1..], " as ") then MalformedTraitMethod(name[1..]) else MalformedMethod(name[1..])
  }

  /** Parsing fails exactly on angled names that nothing separates, with exactly that error. */
  lemma ParseFailsExactly(name: string)
    ensures ParseRustFunctionName(name).Err? <==> Angled(name) && !Separated(name)
    ensures forall error :: ParseRustFunctionName(name) == Err(error) <==> FailsWith(name, error)
  {
    if Angled(name) {
      match SplitOnce(name[1..], " as ") {
        case Some((type_, rem)) => AfterFirstAs(name, type_, rem);
        case None => WithoutAs(name);
      }
    }
  }

  lemma WithoutAs(name: string)
    requires name != [] && !Occurs(name[1..], " as ")
    ensures Separated(name) <==> Occurs(name[1..], ">::")
  {
    NoFirstAs(name);
    if i: nat :| OccursAt(name[1..], ">::", i) {
      ShiftedOccurrence(name, ">::", i, 1);
      assert SeparatedAt(name, i + 1);
    }
    if i: nat :| SeparatedAt(name, i) {
      ShiftedOccurrence(name, ">::", i - 1, 1);
      assert OccursAt(name[1..], ">::", i - 1);
    }
  }

  lemma ShiftedOccurrence(s: string, pat: string, i: nat, d: nat)
    requires d <= |s|
    ensures OccursAt(s[d..], pat, i) <==> OccursAt(s, pat, i + d)
  {
    if i + d + |pat| <= |s| {
      assert s[d..][i..i + |pat|] == s[i + d..i + d + |pat|];
    }
  }

  lemma NoFirstAs(name: string)
    requires name != [] && !Occurs(name[1..], " as ")
    ensures forall j: nat :: !FirstAsAt(name, j)
  {
    forall j: nat ensures !FirstAsAt(name, j) {
      if 1 <= j {
        ShiftedOccurrence(name, " as ", j - 1, 1);
      }
    }
  }

  lemma AfterFirstAs(name: string, type_: string, rem: string)
    requires name != [] && SplitOnce(name[1..], " as ") == Some((type_, rem))
    ensures Separated(name) <==> Occurs(rem, ">::")
  {
    var at := |type_| + 1;
    assert name[at + 4..] == rem;
    assert name[1..][|type_|..|type_| + 4] == " as ";
    ShiftedOccurrence(name, " as ", |type_|, 1);
    forall k: nat | 1 <= k < at ensures !OccursAt(name, " as ", k) {
      ShiftedOccurrence(name, " as ", k - 1, 1);
    }
    assert FirstAsAt(name, at);
    if i: nat :| OccursAt(rem, ">::", i) {
      ShiftedOccurrence(name, ">::", i, at + 4);
      assert SeparatedAt(name, i + at + 4);
    }
    if i: nat :| SeparatedAt(name, i) {
      ShiftedOccurrence(name, ">::", i - at - 4, at + 4);
      assert OccursAt(rem, ">::", i - at - 4);
    }
  }

  ghost predicate EndsWith(s: string, suffix: string) {
    |suffix| <= |s| && s[|s| - |suffix|..] == suffix
  }

  /** An occurrence inside a part is an occurrence in the whole. */
  lemma OccursInside(a: string, s: string, b: string, pat: string, i: nat)
    ensures OccursAt(s, pat, i) ==> OccursAt(a + s + b, pat, |a| + i)
  {
    if OccursAt(s, pat, i) {
      assert (a + s + b)[|a| + i..|a| + i + |pat|] == s[i..i + |pat|];
    }
  }

  lemma EarlyAs(t: string, u: string, i: nat)
    requires i < |t| && OccursAt(t + " as " + u, " as ", i)
    ensures Occurs(t, " as ") || EndsWith(t, " as")
  {
    var s := t + " as " + u;
    var w := s[i..i + 4];
    assert w[0] == s[i] && w[1] == s[i + 1] && w[2] == s[i + 2] && w[3] == s[i + 3];
    if i + 4 <= |t| {
      assert t[i..i + 4] == w;
      assert OccursAt(t, " as ", i);
    } else {
      assert s[|t|] == ' ' && s[|t| + 1] == 'a' && s[|t| + 2] == 's';
      assert i == |t| - 3;
      assert t[i..] == w[..3];
    }
  }

  /** The first " as " of `t + " as " + u` is the one shown, unless `t` contains one or ends in " as". */
  lemma FirstAs(t: string, u: string)
    ensures (forall i: nat :: i < |t| ==> !OccursAt(t + " as " + u, " as ", i)) <==>
            !Occurs(t, " as ") && !EndsWith(t, " as")
  {
    var s := t + " as " + u;
    if i: nat :| OccursAt(t, " as ", i) {
      OccursInside("", t, " as " + u, " as ", i);
      assert "" + t + (" as " + u) == s;
      assert OccursAt(s, " as ", i);
    }
    if EndsWith(t, " as") {
      var i := |t| - 3;
      assert s[i..i + 4] == t[i..] + " ";
      assert OccursAt(s, " as ", i);
    }
    forall i: nat | i < |t| && OccursAt(s, " as ", i) ensures Occurs(t, " as ") || EndsWith(t, " as") {
      EarlyAs(t, u, i);
    }
  }

  /** The last ">::" of `r + ">::" + m` is the one shown, unless `m` contains one. */
  lemma LastSeparator(r: string, m: string)
    ensures (forall i: nat :: i > |r| ==> !OccursAt(r + ">::" + m, ">::", i)) <==> !Occurs(m, ">::")
  {
    var s := r + ">::" + m;
    if i: nat :| OccursAt(m, ">::", i) {
      OccursInside(r + ">::", m, "", ">::", i);
      assert r + ">::" + m + "" == s;
      assert OccursAt(s, ">::", |r| + 3 + i);
    }
    forall i: nat | i > |r| && OccursAt(s, ">::", i) ensures Occurs(m, ">::") {
      var w := s[i..i + 3];
      assert w[0] == s[i] == '>';
      assert s[|r| + 1] == ':' && s[|r| + 2] == ':';
      var k := i - |r| - 3;
      assert m[k..k + 3] == w;
      assert OccursAt(m, ">::", k);
    }
  }

  lemma SplitOnceAs(t: string, u: string)
    ensures SplitOnce(t + " as " + u, " as ").Some?
    ensures SplitOnce(t + " as " + u, " as ") == Some((t, u)) <==> !Occurs(t, " as ") && !EndsWith(t, " as")
  {
    var s := t + " as " + u;
    FirstAs(t, u);
    assert s[|t|..|t| + 4] == " as ";
    assert OccursAt(s, " as ", |t|);
    var (t', u') := SplitOnce(s, " as ").value;
    assert s[|t'|..|t'| + 4] == " as ";
    assert OccursAt(s, " as ", |t'|);
    if |t'| == |t| {
      assert t' == s[..|t|] == t && u' == s[|t| + 4..] == u;
    }
  }

  lemma RsplitOnceSeparator(r: string, m: string)
    ensures RsplitOnce(r + ">::" + m, ">::").Some?
    ensures RsplitOnce(r + ">::" + m, ">::") == Some((r, m)) <==> !Occurs(m, ">::")
  {
    var s := r + ">::" + m;
    LastSeparator(r, m);
    assert s[|r|..|r| + 3] == ">::";
    assert OccursAt(s, ">::", |r|);
    var (r', m') := RsplitOnce(s, ">::").value;
    assert s[|r'|..|r'| + 3] == ">::";
    assert OccursAt(s, ">::", |r'|);
    if |r'| == |r| {
      assert r' == s[..|r|] == r && m' == s[|r| + 3..] == m;
    }
  }

  /** A qualified trait method parses to its parts exactly when the type neither contains " as "
      nor ends in " as" and the method has no ">::". */
  lemma TraitMethodParsesExactly(t: string, r: string, m: string)
    ensures ParseRustFunctionName(Print(TraitMethod(r, t, m), true)) == Ok(TraitMethod(r, t, m)) <==>
            !Occurs(t, " as ") && !EndsWith(t, " as") && !Occurs(m, ">::")
  {
    var u := r + ">::" + m;
    var rest := t + " as " + u;
    PrintTrait(t, r, m);
    assert ("<" + rest)[1..] == rest;
    SplitOnceAs(t, u);
    RsplitOnceSeparator(r, m);
    var (t', u') := SplitOnce(rest, " as ").value;
    if t' == t {
      assert u' == rest[|t| + 4..] == u;
    }
  }

  /** A method in angle form parses to its parts exactly when no " as " shows and the method
      has no ">::". */
  lemma AngledMethodParsesExactly(t: string, m: string)
    ensures ParseRustFunctionName(Print(StructMethod(t, m), true)) == Ok(StructMethod(t, m)) <==>
            !Occurs(t + ">::" + m, " as ") && !Occurs(m, ">::")
  {
    var rest := t + ">::" + m;
    PrintAngledMethod(t, m);
    assert ("<" + rest)[1..] == rest;
    RsplitOnceSeparator(t, m);
  }

  /** The last "::" of `t + "::" + m` is the one shown, unless `m` contains one or starts with ':'. */
  lemma LastColons(t: string, m: string)
    ensures (forall i: nat :: i > |t| ==> !OccursAt(t + "::" + m, "::", i)) <==>
            !Occurs(m, "::") && !(m != [] && m[0] == ':')
  {
    var s := t + "::" + m;
    if i: nat :| OccursAt(m, "::", i) {
      OccursInside(t + "::", m, "", "::", i);
      assert t + "::" + m + "" == s;
      assert OccursAt(s, "::", |t| + 2 + i);
    }
    if m != [] && m[0] == ':' {
      assert s[|t| + 1] == ':' && s[|t| + 2] == ':';
      assert s[|t| + 1..|t| + 3] == "::";
      assert OccursAt(s, "::", |t| + 1);
    }
    forall i: nat | i > |t| && OccursAt(s, "::", i) ensures Occurs(m, "::") || (m != [] && m[0] == ':') {
      var w := s[i..i + 2];
      assert w[0] == s[i] && w[1] == s[i + 1];
      if i == |t| + 1 {
        assert s[i + 1] == m[0];
      } else {
        var k := i - |t| - 2;
        assert m[k..k + 2] == w;
        assert OccursAt(m, "::", k);
      }
    }
  }

  lemma RsplitOnceColons(t: string, m: string)
    ensures RsplitOnce(t + "::" + m, "::").Some?
    ensures RsplitOnce(t + "::" + m, "::") == Some((t, m)) <==> !Occurs(m, "::") && !(m != [] && m[0] == ':')
  {
    var s := t + "::" + m;
    LastColons(t, m);
    assert s[|t|..|t| + 2] == "::";
    assert OccursAt(s, "::", |t|);
    var (t', m') := RsplitOnce(s, "::").value;
    assert s[|t'|..|t'| + 2] == "::";
    assert OccursAt(s, "::", |t'|);
    if |t'| == |t| {
      assert t' == s[..|t|] == t && m' == s[|t| + 2..] == m;
    }
  }

  /** A plain path parses to its parts exactly when it is not in angle form, does not end in '>',
      and the method neither contains "::" nor starts with ':'. */
  lemma PathMethodParsesExactly(t: string, m: string)
    ensures ParseRustFunctionName(Print(StructMethod(t, m), false)) == Ok(StructMethod(t, m)) <==>
            && !Angled(t + "::" + m) && !(m != [] && m[|m| - 1] == '>')
            && !Occurs(m, "::") && !(m != [] && m[0] == ':')
  {
    var s := t + "::" + m;
    ParseIsLossless(s);
    assert |Print(StructMethod(t, m), true)| == |s| + 2;
    RsplitOnceColons(t, m);
    assert s[|s| - 1] == if m == [] then ':' else m[|m| - 1];
  }

  // ---------- Parsing, from the text alone ----------

  /** The parts a name consists of. */
  ghost predicate IsParse(name: string, parsed: RustFunctionName) {
    match parsed
    case TraitMethod(r, t, m) =>
      && name == "<" + t + " as " + r + ">::" + m
      && !Occurs(t, " as ") && !EndsWith(t, " as") && !Occurs(m, ">::")
    case StructMethod(t, m) =>
      || (name == "<" + t + ">::" + m && !Occurs(name, " as ") && !Occurs(m, ">::"))
      || (&& name == t + "::" + m && !Angled(name) && !(m != [] && m[|m| - 1] == '>')
          && !Occurs(m, "::") && !(m != [] && m[0] == ':'))
    case Bare(f) =>
      name == f && !Angled(name) && ((name != [] && name[|name| - 1] == '>') || !Occurs(name, "::"))
  }

  lemma OpeningAngleNotAs(rest: string)
    ensures Occurs("<" + rest, " as ") <==> Occurs(rest, " as ")
  {
    assert ("<" + rest)[1..] == rest;
    if i: nat :| OccursAt(rest, " as ", i) {
      ShiftedOccurrence("<" + rest, " as ", i, 1);
      assert OccursAt("<" + rest, " as ", i + 1);
    }
    if i: nat :| OccursAt("<" + rest, " as ", i) {
      assert ("<" + rest)[i..i + 4][0] == ("<" + rest)[i];
      ShiftedOccurrence("<" + rest, " as ", i - 1, 1);
      assert OccursAt(rest, " as ", i - 1);
    }
  }

  /** Parsing finds exactly the parts a name consists of. */
  lemma ParsesExactly(name: string, parsed: RustFunctionName)
    ensures ParseRustFunctionName(name) == Ok(parsed) <==> IsParse(name, parsed)
  {
    ParseIsLossless(name);
    match parsed {
      case TraitMethod(r, t, m) =>
        TraitMethodParsesExactly(t, r, m);
      case StructMethod(t, m) =>
        AngledMethodParsesExactly(t, m);
        PathMethodParsesExactly(t, m);
        OpeningAngleNotAs(t + ">::" + m);
        PrintAngledMethod(t, m);
      case Bare(f) =>
    }
  }
}
