/** `Sanitization.CleanID`: free text to an HTML id made of the "name"
    token characters of section 6.2 of HTML 4.01, with `:` and `.` also
    removed so that the id is usable as a CSS identifier. */
module HtmlId {
  import opened CodeUnits
  import opened TextOps

  /** The class kept at line 70: A-Z, a-z, 0-9, `-` and `_`. */
  predicate IsIdChar(c: CodeUnit) {
    IsAsciiUpper(c) || IsAsciiLower(c) || IsDigit(c) || c == Hyphen || c == Underscore
  }

  predicate IsNotHyphen(c: CodeUnit) { c != Hyphen }

  /** No two adjacent hyphens. */
  predicate NoDoubleHyphen(s: Text) {
    forall i :: 0 <= i < |s| - 1 ==> !(s[i] == Hyphen && s[i + 1] == Hyphen)
  }

  /** `Regex.Replace(s, "-+", "-")`: every maximal run of hyphens becomes a
      single hyphen. */
  function CollapseHyphens(s: Text): (r: Text)
    ensures NoDoubleHyphen(r)
    ensures |r| <= |s|
    ensures s != [] ==> r != [] && r[0] == s[0]
    ensures NoDoubleHyphen(s) ==> r == s
  {
    if s == [] then []
    else if |s| >= 2 && s[0] == Hyphen && s[1] == Hyphen then
      CollapseHyphens(s[1..])
    else
      var t := CollapseHyphens(s[1..]);
      var r := [s[0]] + t;
      assert NoDoubleHyphen(r) by {
        forall i | 0 <= i < |r| - 1 ensures !(r[i] == Hyphen && r[i + 1] == Hyphen) {
          if i > 0 {
            assert r[i] == t[i - 1] && r[i + 1] == t[i];
          } else {
            assert r[1] == s[1];
          }
        }
      }
      r
  }

  /** Reference for the collapse, one unit at a time: a `-` that directly
      follows a `-` is dropped and every other unit is kept. `afterHyphen`
      says whether the unit just before `s` was a `-`. */
  function DropRepeatedHyphens(s: Text, afterHyphen: bool): Text
    decreases |s|
  {
    if s == [] then []
    else if afterHyphen && s[0] == Hyphen then DropRepeatedHyphens(s[1..], true)
    else [s[0]] + DropRepeatedHyphens(s[1..], s[0] == Hyphen)
  }

  /** The collapse agrees with the reference; a text that starts with `-`
      keeps that one `-` and loses the rest of its leading run. */
  lemma {:induction false} CollapseIsReference(s: Text)
    ensures CollapseHyphens(s) == DropRepeatedHyphens(s, false)
    ensures s != [] && s[0] == Hyphen ==> CollapseHyphens(s) == [Hyphen] + DropRepeatedHyphens(s[1..], true)
    decreases |s|
  {
    if s != [] {
      CollapseIsReference(s[1..]);
      if |s| >= 2 && s[0] == Hyphen && s[1] == Hyphen {
        assert s[1..][1..] == s[2..];
      } else if s[0] == Hyphen && |s| >= 2 {
        assert DropRepeatedHyphens(s[1..], true) == DropRepeatedHyphens(s[1..], false);
      }
    }
  }

  /** Collapsing brings in no new code unit. */
  lemma {:induction false} CollapseUnits(s: Text)
    ensures forall x :: x in CollapseHyphens(s) ==> x in s
  {
    if s != [] {
      CollapseUnits(s[1..]);
      assert forall x :: x in s[1..] ==> x in s;
    }
  }

  /** Collapsing only drops hyphens: the code units other than `-` are the
      same, in the same order. */
  lemma {:induction false} CollapseKeepsOtherUnits(s: Text)
    ensures Keep(CollapseHyphens(s), IsNotHyphen) == Keep(s, IsNotHyphen)
  {
    if s != [] {
      CollapseKeepsOtherUnits(s[1..]);
      if !(|s| >= 2 && s[0] == Hyphen && s[1] == Hyphen) {
        assert CollapseHyphens(s) == [s[0]] + CollapseHyphens(s[1..]);
        KeepConcat([s[0]], CollapseHyphens(s[1..]), IsNotHyphen);
        KeepConcat([s[0]], s[1..], IsNotHyphen);
        assert s == [s[0]] + s[1..];
      }
    }
  }

  /** Lines 58-61: space, `_`, `[` and `]` each become `-`. */
  function MapSeparators(s: Text): (r: Text)
    ensures |r| == |s|
    ensures forall i :: 0 <= i < |s| ==> r[i] == (if IsSeparator(s[i]) then Hyphen else s[i])
  {
    var s1 := ReplaceAll(s, [Space], [Hyphen]);
    var s2 := ReplaceAll(s1, [Underscore], [Hyphen]);
    var s3 := ReplaceAll(s2, [LeftBracket], [Hyphen]);
    ReplaceUnitPointwise(s, Space, Hyphen);
    ReplaceUnitPointwise(s1, Underscore, Hyphen);
    ReplaceUnitPointwise(s2, LeftBracket, Hyphen);
    ReplaceUnitPointwise(s3, RightBracket, Hyphen);
    ReplaceAll(s3, [RightBracket], [Hyphen])
  }

  predicate IsSeparator(c: CodeUnit) {
    c == Space || c == Underscore || c == LeftBracket || c == RightBracket
  }

  /** What may appear in the final id. */
  predicate IsIdOutputChar(c: CodeUnit) {
    IsAsciiLower(c) || IsDigit(c) || c == Hyphen
  }

  /** `Sanitization.CleanID(id)`. */
  function CleanID(id: Text): (r: Text)
    ensures forall i :: 0 <= i < |r| ==> IsIdOutputChar(r[i])
    ensures NoDoubleHyphen(r)
    ensures |r| <= |id|
    ensures id == [] ==> r == []
  {
    var mapped := MapSeparators(id);
    var lowered := ToLower(mapped);
    var kept := Keep(lowered, IsIdChar);
    CleanIDUnits(id);
    CollapseUnits(kept);
    CollapseHyphens(kept)
  }

  /** Every unit the strip at line 70 keeps is already an output unit: the
      separators are gone and so is upper case. */
  lemma CleanIDUnits(id: Text)
    ensures forall x :: x in Keep(ToLower(MapSeparators(id)), IsIdChar) ==> IsIdOutputChar(x)
  {
    var mapped := MapSeparators(id);
    var lowered := ToLower(mapped);
    assert forall i :: 0 <= i < |lowered| ==> !IsAsciiUpper(lowered[i]) && lowered[i] != Underscore;
    KeepContents(lowered, IsIdChar);
  }

  /** A second pass changes nothing: the output holds no separator, no
      upper-case letter, nothing outside the class and no `--`. */
  lemma CleanIDIdempotent(id: Text)
    ensures CleanID(CleanID(id)) == CleanID(id)
  {
    var r := CleanID(id);
    assert MapSeparators(r) == r;
    ToLowerIdentity(r);
    KeepIdentity(r, IsIdChar);
  }

  lemma MapSeparatorsConcat(a: Text, b: Text)
    ensures MapSeparators(a + b) == MapSeparators(a) + MapSeparators(b)
  {
  }

  /** A code unit that is neither a separator nor, after lower-casing, in
      the kept class (`:` and `.` among them) is simply dropped. */
  lemma CleanIDDropsUnit(a: Text, c: CodeUnit, b: Text)
    requires !IsSeparator(c) && !IsIdChar(Lower(c))
    ensures CleanID(a + [c] + b) == CleanID(a + b)
  {
    var ma, mb := MapSeparators(a), MapSeparators(b);
    MapKeepsUnit(a, c, b);
    MapSeparatorsConcat(a, b);
    StripDropsUnit(ma, c, mb);
  }

  /** The replacement chain leaves a non-separator in place between the
      mapped pieces around it. */
  lemma MapKeepsUnit(a: Text, c: CodeUnit, b: Text)
    requires !IsSeparator(c)
    ensures MapSeparators(a + [c] + b) == MapSeparators(a) + [c] + MapSeparators(b)
  {
    MapSeparatorsConcat(a + [c], b);
    MapSeparatorsConcat(a, [c]);
    assert MapSeparators([c]) == [c];
  }

  /** Lower-casing and then stripping a unit the strip does not keep
      leaves just the pieces around it. */
  lemma StripDropsUnit(a: Text, c: CodeUnit, b: Text)
    requires !IsIdChar(Lower(c))
    ensures Keep(ToLower(a + [c] + b), IsIdChar) == Keep(ToLower(a + b), IsIdChar)
  {
    ToLowerConcat(a + [c], b);
    ToLowerConcat(a, [c]);
    ToLowerConcat(a, b);
    var la, lb := ToLower(a), ToLower(b);
    assert ToLower([c]) == [Lower(c)];
    KeepConcat(la + [Lower(c)], lb, IsIdChar);
    KeepConcat(la, [Lower(c)], IsIdChar);
    KeepConcat(la, lb, IsIdChar);
  }

  /** On text that is already lower-case letters, digits and `-`, only
      the hyphen collapse has an effect. */
  lemma CleanIDOfIdText(s: Text)
    requires forall i :: 0 <= i < |s| ==> IsIdOutputChar(s[i])
    ensures CleanID(s) == CollapseHyphens(s)
  {
    IdTextUnchanged(s);
  }

  lemma IdTextUnchanged(s: Text)
    requires forall i :: 0 <= i < |s| ==> IsIdOutputChar(s[i])
    ensures Keep(ToLower(MapSeparators(s)), IsIdChar) == s
  {
    IdTextUnmapped(s);
    ToLowerIdentity(s);
    KeepIdentity(s, IsIdChar);
  }

  lemma IdTextUnmapped(s: Text)
    requires forall i :: 0 <= i < |s| ==> IsIdOutputChar(s[i])
    ensures MapSeparators(s) == s
  {
  }
}
