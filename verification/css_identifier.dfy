/** `Sanitization.CleanCssIdentifier`: free text to a CSS identifier in the
    sense of section 4.1.3 of CSS 2.1 ("Characters and case"). */
module CssIdentifier {
  import opened CodeUnits
  import opened TextOps

  datatype Option<+T> = None | Some(value: T)

  /** One entry of the substitution table: every `key` becomes `value`. */
  datatype Rule = Rule(key: Text, value: Text)

  /** What a `Dictionary<string, string>` can hold and `String.Replace`
      accepts: non-empty keys, no key twice. The table is a sequence because
      the rules run in enumeration order. */
  predicate ValidFilter(rules: seq<Rule>) {
    && (forall i :: 0 <= i < |rules| ==> |rules[i].key| > 0)
    && (forall i, j :: 0 <= i < j < |rules| ==> rules[i].key != rules[j].key)
  }

  /** The table used when the caller passes none, in insertion order. */
  const DefaultFilter: seq<Rule> := [
    Rule([Space], [Hyphen]),
    Rule([Underscore], [Hyphen]),
    Rule([Slash], [Hyphen]),
    Rule([LeftBracket], [Hyphen]),
    Rule([RightBracket], [])
  ]

  const DoubleUnderscore: Text := [Underscore, Underscore]
  const Placeholder: Text := [Hash, Hash]

  predicate HasKey(rules: seq<Rule>, key: Text) {
    exists i :: 0 <= i < |rules| && rules[i].key == key
  }

  /** Runs the rules one after another, each over the previous result. */
  function ApplyRules(s: Text, rules: seq<Rule>): (r: Text)
    requires forall i :: 0 <= i < |rules| ==> |rules[i].key| > 0
    ensures (forall i :: 0 <= i < |rules| ==> |rules[i].value| <= |rules[i].key|) ==> |r| <= |s|
    ensures s == [] ==> r == []
    decreases |rules|
  {
    if rules == [] then s
    else ApplyRules(ReplaceAll(s, rules[0].key, rules[0].value), rules[1..])
  }

  /** Sequential, not simultaneous: a table extended by one rule is the old
      table's result with that one replacement applied on top. */
  lemma {:induction false} ApplyRulesSnoc(s: Text, rules: seq<Rule>, rule: Rule)
    requires forall i :: 0 <= i < |rules| ==> |rules[i].key| > 0
    requires |rule.key| > 0
    ensures ApplyRules(s, rules + [rule]) == ReplaceAll(ApplyRules(s, rules), rule.key, rule.value)
    decreases |rules|
  {
    if rules == [] {
      assert [] + [rule] == [rule];
    } else {
      assert (rules + [rule])[1..] == rules[1..] + [rule];
      ApplyRulesSnoc(ReplaceAll(s, rules[0].key, rules[0].value), rules[1..], rule);
    }
  }

  /** The table in force (lines 11-21): the caller's as given, or for
      `null` a table of five one-unit keys, none of them `__`, whose values
      are no longer than their keys. */
  function TableOf(filter: Option<seq<Rule>>): (r: seq<Rule>)
    requires filter.Some? ==> ValidFilter(filter.value)
    ensures ValidFilter(r)
    ensures filter.Some? ==> r == filter.value
    ensures filter.None? ==> |r| == 5 && !HasKey(r, DoubleUnderscore)
    ensures filter.None? ==> forall i :: 0 <= i < |r| ==> |r[i].key| == 1 && |r[i].value| <= 1
  {
    if filter.None? then DefaultFilter else filter.value
  }

  /** Steps 1-4 (lines 11-40): choose the table, hide `__` behind `##`
      unless the table has a rule for `__`, run the table, and turn every
      `##` back into `__`. */
  function Substitute(identifier: Text, filter: Option<seq<Rule>>): (r: Text)
    requires filter.Some? ==> ValidFilter(filter.value)
    ensures identifier == [] ==> r == []
    ensures filter.None? ==> |r| <= |identifier|
    ensures filter.Some? && HasKey(filter.value, DoubleUnderscore) ==> r == ApplyRules(identifier, filter.value)
  {
    var rules := TableOf(filter);
    var protect := !HasKey(rules, DoubleUnderscore);
    var hidden := if protect then ReplaceAll(identifier, DoubleUnderscore, Placeholder) else identifier;
    var replaced := ApplyRules(hidden, rules);
    if protect then ReplaceAll(replaced, Placeholder, DoubleUnderscore) else replaced
  }

  /** The allow-list of line 50: `-`, 0-9, A-Z, `_`, a-z and U+00A1-U+FFFF. */
  predicate IsCssChar(c: CodeUnit) {
    c == Hyphen || IsDigit(c) || IsAsciiUpper(c) || c == Underscore || IsAsciiLower(c) || c >= 0xA1
  }

  /** What may appear in the final, lower-cased identifier. */
  predicate IsCssOutputChar(c: CodeUnit) {
    c == Hyphen || IsDigit(c) || c == Underscore || IsAsciiLower(c) || c >= 0xA1
  }

  /** A CSS identifier may not start with a digit, `--`, or `-` and a digit. */
  predicate BadStart(s: Text) {
    || (|s| >= 1 && IsDigit(s[0]))
    || (|s| >= 2 && s[0] == Hyphen && (IsDigit(s[1]) || s[1] == Hyphen))
  }

  /** `Regex.Replace(s, "^[0-9]|^(-[0-9])|^(--)", "_")`: the anchored pattern
      matches at most once, so only the offending one or two leading code
      units are replaced by a single `_`. */
  function FixLeading(s: Text): (r: Text)
    ensures !BadStart(r)
    ensures !BadStart(s) ==> r == s
    ensures BadStart(s) ==> |r| >= 1 && r[0] == Underscore
    ensures BadStart(s) && IsDigit(s[0]) ==> |r| == |s| && r[1..] == s[1..]
    ensures BadStart(s) && !IsDigit(s[0]) ==> |r| == |s| - 1 && r[1..] == s[2..]
  {
    if |s| >= 1 && IsDigit(s[0]) then [Underscore] + s[1..]
    else if |s| >= 2 && s[0] == Hyphen && IsDigit(s[1]) then [Underscore] + s[2..]
    else if |s| >= 2 && s[0] == Hyphen && s[1] == Hyphen then [Underscore] + s[2..]
    else s
  }

  /** Lower-casing neither creates nor removes a bad start. */
  lemma ToLowerKeepsStart(s: Text)
    ensures BadStart(ToLower(s)) <==> BadStart(s)
  {
  }

  /** `Sanitization.CleanCssIdentifier(identifier, filter)`; `None` stands for
      the null default argument. */
  function CleanCssIdentifier(identifier: Text, filter: Option<seq<Rule>>): (r: Text)
    requires filter.Some? ==> ValidFilter(filter.value)
    ensures forall i :: 0 <= i < |r| ==> IsCssOutputChar(r[i])
    ensures !BadStart(r)
    ensures identifier == [] ==> r == []
    ensures filter.None? ==> |r| <= |identifier|
  {
    var kept := Keep(Substitute(identifier, filter), IsCssChar);
    var fixed := FixLeading(kept);
    ToLowerKeepsStart(fixed);
    ToLower(fixed)
  }
}

/** Properties of `CleanCssIdentifier` and of its substitution steps. */
module CssProperties {
  import opened CodeUnits
  import opened TextOps
  import opened CssIdentifier

  /** Hiding `__` behind `##` and restoring it is the identity on any text
      that holds no `#` of its own. */
  lemma {:induction false} PlaceholderRoundTrip(s: Text)
    requires Hash !in s
    ensures ReplaceAll(ReplaceAll(s, DoubleUnderscore, Placeholder), Placeholder, DoubleUnderscore) == s
    decreases |s|
  {
    if s == [] {
    } else if DoubleUnderscore <= s {
      var tail := ReplaceAll(s[2..], DoubleUnderscore, Placeholder);
      assert ReplaceAll(s, DoubleUnderscore, Placeholder) == Placeholder + tail;
      ReplaceAllLeadingKey(tail, Placeholder, DoubleUnderscore);
      PlaceholderRoundTrip(s[2..]);
      assert s == DoubleUnderscore + s[2..];
    } else {
      var tail := ReplaceAll(s[1..], DoubleUnderscore, Placeholder);
      assert ReplaceAll(s, DoubleUnderscore, Placeholder) == [s[0]] + tail;
      ReplaceAllSkipsPrefix([s[0]], tail, Placeholder, DoubleUnderscore);
      PlaceholderRoundTrip(s[1..]);
      assert s == [s[0]] + s[1..];
    }
  }

  /** What the default table does to one code unit outside a `__` pair. */
  function DefaultUnit(c: CodeUnit): Text {
    if c == Space || c == Underscore || c == Slash || c == LeftBracket then [Hyphen]
    else if c == RightBracket then []
    else [c]
  }

  /** Reference definition of steps 1-4 under the default table, as a single
      left-to-right pass that treats `__` as one protected token. */
  function DefaultScan(s: Text): Text {
    if s == [] then []
    else if |s| >= 2 && s[0] == Underscore && s[1] == Underscore then DoubleUnderscore + DefaultScan(s[2..])
    else DefaultUnit(s[0]) + DefaultScan(s[1..])
  }

  lemma ScanPair(s: Text)
    requires |s| >= 2 && s[0] == Underscore && s[1] == Underscore
    ensures DefaultScan(s) == DoubleUnderscore + DefaultScan(s[2..])
  {
  }

  lemma ScanUnit(s: Text)
    requires s != [] && !(|s| >= 2 && s[0] == Underscore && s[1] == Underscore)
    ensures DefaultScan(s) == DefaultUnit(s[0]) + DefaultScan(s[1..])
  {
  }

  lemma ConcatPairStep(a: Text, b: Text)
    requires |a| >= 2 && a[0] == Underscore && a[1] == Underscore
    requires DefaultScan(a[2..] + b) == DefaultScan(a[2..]) + DefaultScan(b)
    ensures DefaultScan(a + b) == DefaultScan(a) + DefaultScan(b)
  {
    var ab := a + b;
    assert ab[0] == a[0] && ab[1] == a[1];
    assert ab[2..] == a[2..] + b;
    ScanPair(a);
    ScanPair(ab);
    ConcatAssoc(DoubleUnderscore, DefaultScan(a[2..]), DefaultScan(b));
  }

  lemma ConcatUnitStep(a: Text, b: Text)
    requires a != [] && !(|a| >= 2 && a[0] == Underscore && a[1] == Underscore)
    requires |a| == 1 ==> a[0] != Underscore
    requires DefaultScan(a[1..] + b) == DefaultScan(a[1..]) + DefaultScan(b)
    ensures DefaultScan(a + b) == DefaultScan(a) + DefaultScan(b)
  {
    var ab := a + b;
    assert ab[0] == a[0];
    assert |a| >= 2 ==> ab[1] == a[1];
    assert ab[1..] == a[1..] + b;
    ScanUnit(a);
    ScanUnit(ab);
    ConcatAssoc(DefaultUnit(a[0]), DefaultScan(a[1..]), DefaultScan(b));
  }

  /** The one-pass reference works chunk by chunk as long as a chunk does
      not end in `_`. */
  lemma {:induction false} DefaultScanConcat(a: Text, b: Text)
    requires a == [] || a[|a| - 1] != Underscore
    ensures DefaultScan(a + b) == DefaultScan(a) + DefaultScan(b)
    decreases |a|
  {
    if a == [] {
      assert a + b == b;
    } else if |a| >= 2 && a[0] == Underscore && a[1] == Underscore {
      DefaultScanConcat(a[2..], b);
      ConcatPairStep(a, b);
    } else {
      DefaultScanConcat(a[1..], b);
      ConcatUnitStep(a, b);
    }
  }

  lemma AlnumPrefixStep(w: Text, rest: Text)
    requires w != [] && (IsAsciiUpper(w[0]) || IsAsciiLower(w[0]) || IsDigit(w[0]))
    requires DefaultScan(w[1..] + rest) == w[1..] + DefaultScan(rest)
    ensures DefaultScan(w + rest) == w + DefaultScan(rest)
  {
    var wr := w + rest;
    assert wr[0] == w[0] && wr[1..] == w[1..] + rest;
    ScanUnit(wr);
    assert w == [w[0]] + w[1..];
    ConcatAssoc([w[0]], w[1..], DefaultScan(rest));
  }

  /** A leading run of letters and digits passes through the default table
      unchanged. */
  lemma {:induction false} DefaultScanAlnumPrefix(w: Text, rest: Text)
    requires forall i :: 0 <= i < |w| ==> IsAsciiUpper(w[i]) || IsAsciiLower(w[i]) || IsDigit(w[i])
    ensures DefaultScan(w + rest) == w + DefaultScan(rest)
    decreases |w|
  {
    if w == [] {
      assert w + rest == rest;
    } else {
      DefaultScanAlnumPrefix(w[1..], rest);
      AlnumPrefixStep(w, rest);
    }
  }

  predicate UnitKeys(rules: seq<Rule>) {
    forall i :: 0 <= i < |rules| ==> |rules[i].key| == 1
  }

  /** A table whose keys are single code units works unit by unit. */
  lemma {:induction false} ApplyUnitRulesConcat(a: Text, b: Text, rules: seq<Rule>)
    requires UnitKeys(rules)
    ensures ApplyRules(a + b, rules) == ApplyRules(a, rules) + ApplyRules(b, rules)
    decreases |rules|
  {
    if rules != [] {
      var k := rules[0].key;
      assert k == [k[0]];
      ReplaceUnitConcat(a, b, k[0], rules[0].value);
      ApplyUnitRulesConcat(ReplaceAll(a, k, rules[0].value), ReplaceAll(b, k, rules[0].value), rules[1..]);
    }
  }

  /** A table none of whose keys occurs leaves the text alone. */
  lemma {:induction false} ApplyRulesAbsent(s: Text, rules: seq<Rule>)
    requires forall i :: 0 <= i < |rules| ==> |rules[i].key| > 0 && !Occurs(s, rules[i].key)
    ensures ApplyRules(s, rules) == s
    decreases |rules|
  {
    if rules != [] {
      ReplaceAllAbsent(s, rules[0].key, rules[0].value);
      ApplyRulesAbsent(s, rules[1..]);
    }
  }

  lemma DefaultFilterFacts()
    ensures ValidFilter(DefaultFilter) && UnitKeys(DefaultFilter)
    ensures !HasKey(DefaultFilter, DoubleUnderscore)
  {
    assert forall i :: 0 <= i < |DefaultFilter| ==> |DefaultFilter[i].key| == 1;
  }

  lemma ApplyRulesUnfold(s: Text, rules: seq<Rule>)
    requires rules != [] && forall i :: 0 <= i < |rules| ==> |rules[i].key| > 0
    ensures ApplyRules(s, rules) == ApplyRules(ReplaceAll(s, rules[0].key, rules[0].value), rules[1..])
  {
  }

  /** The default table written out as the chain of five replacements it
      performs. */
  lemma DefaultRulesChain(s: Text)
    ensures ApplyRules(s, DefaultFilter)
        == ReplaceAll(ReplaceAll(ReplaceAll(ReplaceAll(ReplaceAll(s,
             [Space], [Hyphen]), [Underscore], [Hyphen]), [Slash], [Hyphen]),
             [LeftBracket], [Hyphen]), [RightBracket], [])
  {
    var t0 := DefaultFilter;
    var t1 := [Rule([Underscore], [Hyphen]), Rule([Slash], [Hyphen]), Rule([LeftBracket], [Hyphen]), Rule([RightBracket], [])];
    var t2 := [Rule([Slash], [Hyphen]), Rule([LeftBracket], [Hyphen]), Rule([RightBracket], [])];
    var t3 := [Rule([LeftBracket], [Hyphen]), Rule([RightBracket], [])];
    var t4 := [Rule([RightBracket], [])];
    assert t0[1..] == t1 && t1[1..] == t2 && t2[1..] == t3 && t3[1..] == t4 && t4[1..] == [];
    var s1 := ReplaceAll(s, [Space], [Hyphen]);
    var s2 := ReplaceAll(s1, [Underscore], [Hyphen]);
    var s3 := ReplaceAll(s2, [Slash], [Hyphen]);
    var s4 := ReplaceAll(s3, [LeftBracket], [Hyphen]);
    ApplyRulesUnfold(s, t0);
    ApplyRulesUnfold(s1, t1);
    ApplyRulesUnfold(s2, t2);
    ApplyRulesUnfold(s3, t3);
    ApplyRulesUnfold(s4, t4);
  }

  /** The default table maps a single code unit as `DefaultUnit` says. */
  lemma DefaultRulesOnUnit(c: CodeUnit)
    ensures ApplyRules([c], DefaultFilter) == DefaultUnit(c)
  {
    DefaultRulesChain([c]);
  }

  lemma DefaultRulesOnPlaceholder()
    ensures ApplyRules(Placeholder, DefaultFilter) == Placeholder
  {
    DefaultFilterFacts();
    forall i | 0 <= i < |DefaultFilter|
      ensures |DefaultFilter[i].key| > 0 && !Occurs(Placeholder, DefaultFilter[i].key)
    {
      var k := DefaultFilter[i].key;
      assert k == [k[0]] && k[0] !in Placeholder;
      UnitKeyAbsent(Placeholder, k[0]);
    }
    ApplyRulesAbsent(Placeholder, DefaultFilter);
  }

  /** Steps 1-4 with the default table, as the chain of replacements
      they perform. `DefaultSubstitute` shows it is `Substitute(s, None)`;
      it exists only to carry the induction of `DefaultStepsIsScan`. */
  function DefaultSteps(s: Text): Text {
    ReplaceAll(ApplyRules(ReplaceAll(s, DoubleUnderscore, Placeholder), DefaultFilter), Placeholder, DoubleUnderscore)
  }

  lemma DefaultSubstitute(s: Text)
    ensures Substitute(s, None) == DefaultSteps(s)
  {
    DefaultFilterFacts();
  }

  /** A leading `__` comes out of steps 1-4 as `__`. */
  lemma StepsPair(s: Text)
    requires |s| >= 2 && s[0] == Underscore && s[1] == Underscore
    ensures DefaultSteps(s) == DoubleUnderscore + DefaultSteps(s[2..])
  {
    assert DoubleUnderscore <= s;
    var tail := ReplaceAll(s[2..], DoubleUnderscore, Placeholder);
    assert ReplaceAll(s, DoubleUnderscore, Placeholder) == Placeholder + tail;
    ApplyUnitRulesConcat(Placeholder, tail, DefaultFilter);
    DefaultRulesOnPlaceholder();
    ReplaceAllLeadingKey(ApplyRules(tail, DefaultFilter), Placeholder, DoubleUnderscore);
  }

  /** Any other leading unit except `#` comes out as the default table
      maps it. */
  lemma StepsUnit(s: Text)
    requires s != [] && s[0] != Hash
    requires !(|s| >= 2 && s[0] == Underscore && s[1] == Underscore)
    ensures DefaultSteps(s) == DefaultUnit(s[0]) + DefaultSteps(s[1..])
  {
    assert !(DoubleUnderscore <= s);
    var tail := ReplaceAll(s[1..], DoubleUnderscore, Placeholder);
    assert ReplaceAll(s, DoubleUnderscore, Placeholder) == [s[0]] + tail;
    ApplyUnitRulesConcat([s[0]], tail, DefaultFilter);
    DefaultRulesOnUnit(s[0]);
    assert Hash !in DefaultUnit(s[0]);
    ReplaceAllSkipsPrefix(DefaultUnit(s[0]), ApplyRules(tail, DefaultFilter), Placeholder, DoubleUnderscore);
  }

  lemma {:induction false} DefaultStepsIsScan(s: Text)
    requires Hash !in s
    ensures DefaultSteps(s) == DefaultScan(s)
    decreases |s|
  {
    if s == [] {
    } else if |s| >= 2 && s[0] == Underscore && s[1] == Underscore {
      StepsPair(s);
      DefaultStepsIsScan(s[2..]);
    } else {
      StepsUnit(s);
      DefaultStepsIsScan(s[1..]);
    }
  }

  /** On text without `#`, steps 1-4 with the default table agree with the
      one-pass reference: every `__` pair is kept, a lone `_`, space, `/` or
      `[` becomes `-`, and `]` disappears. */
  lemma DefaultSubstituteIsScan(s: Text)
    requires Hash !in s
    ensures Substitute(s, None) == DefaultScan(s)
  {
    DefaultSubstitute(s);
    DefaultStepsIsScan(s);
  }

  /** After the default loop none of its five keys is left. */
  lemma DefaultRulesClearKeys(s: Text)
    ensures var r := ApplyRules(s, DefaultFilter);
      Space !in r && Underscore !in r && Slash !in r && LeftBracket !in r && RightBracket !in r
  {
    DefaultRulesChain(s);
    var s1 := ReplaceAll(s, [Space], [Hyphen]);
    var s2 := ReplaceAll(s1, [Underscore], [Hyphen]);
    var s3 := ReplaceAll(s2, [Slash], [Hyphen]);
    var s4 := ReplaceAll(s3, [LeftBracket], [Hyphen]);
    ReplaceAllUnits(s1, [Underscore], [Hyphen]);
    ReplaceAllUnits(s2, [Slash], [Hyphen]);
    ReplaceAllUnits(s3, [LeftBracket], [Hyphen]);
    ReplaceAllUnits(s4, [RightBracket], []);
  }

  /** A literal `##` in the input is indistinguishable from `__`: the
      placeholder restore at lines 37-40 runs whenever the table has no `__`
      rule, not only when the input held `__`. */
  lemma PlaceholderCollision(a: Text, b: Text, filter: Option<seq<Rule>>)
    requires filter.Some? ==> ValidFilter(filter.value)
    requires !HasKey(TableOf(filter), DoubleUnderscore)
    requires Underscore !in a
    ensures CleanCssIdentifier(a + Placeholder + b, filter) == CleanCssIdentifier(a + DoubleUnderscore + b, filter)
  {
    var tail := ReplaceAll(b, DoubleUnderscore, Placeholder);
    assert a + Placeholder + b == a + (Placeholder + b);
    assert a + DoubleUnderscore + b == a + (DoubleUnderscore + b);
    ReplaceAllSkipsPrefix(a, Placeholder + b, DoubleUnderscore, Placeholder);
    ReplaceAllSkipsPrefix(Placeholder, b, DoubleUnderscore, Placeholder);
    ReplaceAllSkipsPrefix(a, DoubleUnderscore + b, DoubleUnderscore, Placeholder);
    ReplaceAllLeadingKey(b, DoubleUnderscore, Placeholder);
    assert ReplaceAll(a + Placeholder + b, DoubleUnderscore, Placeholder)
        == ReplaceAll(a + DoubleUnderscore + b, DoubleUnderscore, Placeholder);
    assert Substitute(a + Placeholder + b, filter) == Substitute(a + DoubleUnderscore + b, filter);
  }

  /** Lower-case letters, digits and `-`: what the default table and the
      strip leave alone. */
  predicate IsPlain(c: CodeUnit) {
    IsAsciiLower(c) || IsDigit(c) || c == Hyphen
  }

  lemma {:induction false} DefaultScanPlain(s: Text)
    requires forall i :: 0 <= i < |s| ==> IsPlain(s[i])
    ensures DefaultScan(s) == s
    decreases |s|
  {
    if s != [] {
      DefaultScanPlain(s[1..]);
      PlainStep(s);
    }
  }

  lemma PlainStep(s: Text)
    requires s != [] && IsPlain(s[0]) && DefaultScan(s[1..]) == s[1..]
    ensures DefaultScan(s) == s
  {
    assert s[0] != Underscore;
    ScanUnit(s);
    assert DefaultUnit(s[0]) == [s[0]];
    assert [s[0]] + s[1..] == s;
  }

  /** Once the substitution steps are known to agree with the reference on
      `s`, the rest of the default pipeline is the strip, the leading fix
      and the fold. */
  lemma CleanViaScan(s: Text, scanned: Text)
    requires Hash !in s && DefaultScan(s) == scanned
    ensures CleanCssIdentifier(s, None) == ToLower(FixLeading(Keep(scanned, IsCssChar)))
  {
    DefaultSubstituteIsScan(s);
  }

  /** When the reference scan yields plain units and `_` only, the strip
      and the fold have nothing left to do: only the leading fix acts. */
  lemma CleanViaPlainScan(s: Text, scanned: Text)
    requires Hash !in s && DefaultScan(s) == scanned
    requires forall i :: 0 <= i < |scanned| ==> IsPlain(scanned[i]) || scanned[i] == Underscore
    ensures CleanCssIdentifier(s, None) == FixLeading(scanned)
  {
    DefaultSubstituteIsScan(s);
    CleanSubstitutedPlain(s, scanned);
  }

  /** Letters, digits, `-` and `_` all pass the strip of line 50. */
  lemma KeepPlain(s: Text)
    requires forall i :: 0 <= i < |s| ==> IsPlain(s[i]) || s[i] == Underscore
    ensures Keep(s, IsCssChar) == s
  {
    KeepIdentity(s, IsCssChar);
  }

  /** The leading fix introduces no upper-case letter. */
  lemma FixLeadingNoUpper(s: Text)
    requires forall i :: 0 <= i < |s| ==> !IsAsciiUpper(s[i])
    ensures ToLower(FixLeading(s)) == FixLeading(s)
  {
    var f := FixLeading(s);
    if BadStart(s) {
      forall i | 0 <= i < |f| ensures !IsAsciiUpper(f[i]) {
        if i > 0 {
          if IsDigit(s[0]) {
            assert f[i] == f[1..][i - 1] == s[i];
          } else {
            assert f[i] == f[1..][i - 1] == s[i + 1];
          }
        }
      }
    }
    ToLowerIdentity(f);
  }

  /** When steps 1-4 yield plain units and `_` only, the strip and the fold
      have nothing left to do: only the leading fix acts. */
  lemma CleanSubstitutedPlain(s: Text, t: Text)
    requires Substitute(s, None) == t
    requires forall i :: 0 <= i < |t| ==> IsPlain(t[i]) || t[i] == Underscore
    ensures CleanCssIdentifier(s, None) == FixLeading(t)
  {
    KeepPlain(t);
    assert forall i :: 0 <= i < |t| ==> !IsAsciiUpper(t[i]);
    FixLeadingNoUpper(t);
  }

  /** With the default table, text of lower-case letters, digits and `-`
      is changed only at its start. */
  lemma CleanPlain(s: Text)
    requires forall i :: 0 <= i < |s| ==> IsPlain(s[i])
    ensures CleanCssIdentifier(s, None) == FixLeading(s)
  {
    DefaultScanPlain(s);
    DefaultSubstituteIsScan(s);
    CleanSubstitutedPlain(s, s);
  }

  /** The one-pass reference keeps a `__` between plain words. */
  lemma DefaultScanKeepsPair(a: Text, b: Text)
    requires forall i :: 0 <= i < |a| ==> IsPlain(a[i])
    requires forall i :: 0 <= i < |b| ==> IsPlain(b[i])
    ensures DefaultScan(a + DoubleUnderscore + b) == a + DoubleUnderscore + b
  {
    var pb := DoubleUnderscore + b;
    assert a + DoubleUnderscore + b == a + pb;
    DefaultScanConcat(a, pb);
    DefaultScanPlain(a);
    assert pb[2..] == b;
    ScanPair(pb);
    DefaultScanPlain(b);
  }

  lemma PlainPairUnits(a: Text, b: Text)
    requires forall i :: 0 <= i < |a| ==> IsPlain(a[i])
    requires forall i :: 0 <= i < |b| ==> IsPlain(b[i])
    ensures var s := a + DoubleUnderscore + b;
      forall i :: 0 <= i < |s| ==> IsPlain(s[i]) || s[i] == Underscore
  {
    var s := a + DoubleUnderscore + b;
    forall i | 0 <= i < |s| ensures IsPlain(s[i]) || s[i] == Underscore {
      if i < |a| {
        assert s[i] == a[i];
      } else if |a| + 2 <= i {
        assert s[i] == b[i - |a| - 2];
      }
    }
  }

  /** With the default table a `__` between plain words survives. */
  lemma CleanKeepsDoubleUnderscore(a: Text, b: Text)
    requires forall i :: 0 <= i < |a| ==> IsPlain(a[i])
    requires forall i :: 0 <= i < |b| ==> IsPlain(b[i])
    ensures CleanCssIdentifier(a + DoubleUnderscore + b, None) == FixLeading(a + DoubleUnderscore + b)
  {
    var s := a + DoubleUnderscore + b;
    DefaultScanKeepsPair(a, b);
    PlainPairUnits(a, b);
    assert Hash !in s;
    DefaultSubstituteIsScan(s);
    CleanSubstitutedPlain(s, s);
  }
}
