/** The two text primitives both sanitisers are built from: .NET's
    `String.Replace(string, string)` and a `Regex.Replace` whose pattern is a
    negated character class with an empty replacement (a keep filter). */
module TextOps {
  import opened CodeUnits

  /** `key` occurs in `s` starting at index `i`. */
  predicate OccursAt(s: Text, key: Text, i: nat) {
    i + |key| <= |s| && s[i..i + |key|] == key
  }

  predicate Occurs(s: Text, key: Text) {
    exists i: nat | i <= |s| :: OccursAt(s, key, i)
  }

  /** An occurrence in a suffix is an occurrence in the whole text. */
  lemma OccursInTail(s: Text, key: Text, k: nat)
    requires k <= |s| && Occurs(s[k..], key)
    ensures Occurs(s, key)
  {
    var i: nat :| i <= |s[k..]| && OccursAt(s[k..], key, i);
    assert s[k..][i..i + |key|] == s[i + k..i + k + |key|];
    assert OccursAt(s, key, i + k);
  }

  /** A one-code-unit key occurs exactly where that code unit does. */
  lemma UnitKeyAbsent(s: Text, c: CodeUnit)
    requires c !in s
    ensures !Occurs(s, [c])
  {
    forall i: nat | i <= |s| ensures !OccursAt(s, [c], i) {
      if i + 1 <= |s| {
        assert s[i..i + 1] == [s[i]];
      }
    }
  }

  /** `String.Replace`: scans left to right and replaces every
      non-overlapping occurrence of the non-empty `key` by `val`; text produced
      by a replacement is never rescanned. */
  function ReplaceAll(s: Text, key: Text, val: Text): (r: Text)
    requires |key| > 0
    ensures |val| <= |key| ==> |r| <= |s|
    ensures |val| == |key| ==> |r| == |s|
    ensures |key| == 1 && key[0] !in val ==> key[0] !in r
    decreases |s|
  {
    if s == [] then []
    else if key <= s then val + ReplaceAll(s[|key|..], key, val)
    else [s[0]] + ReplaceAll(s[1..], key, val)
  }

  lemma AbsentStep(s: Text, key: Text)
    requires s != [] && |key| > 0 && !Occurs(s, key)
    ensures !(key <= s) && !Occurs(s[1..], key)
  {
    if key <= s {
      assert OccursAt(s, key, 0);
    }
    if Occurs(s[1..], key) {
      OccursInTail(s, key, 1);
    }
  }

  /** A key that does not occur leaves the text unchanged. */
  lemma {:induction false} ReplaceAllAbsent(s: Text, key: Text, val: Text)
    requires |key| > 0 && !Occurs(s, key)
    ensures ReplaceAll(s, key, val) == s
    decreases |s|
  {
    if s != [] {
      AbsentStep(s, key);
      ReplaceAllAbsent(s[1..], key, val);
    }
  }

  /** A replacement only brings in units of the text or of the value. */
  lemma {:induction false} ReplaceAllUnits(s: Text, key: Text, val: Text)
    requires |key| > 0
    ensures forall c :: c in ReplaceAll(s, key, val) ==> c in s || c in val
    decreases |s|
  {
    if s != [] {
      if key <= s {
        ReplaceAllUnits(s[|key|..], key, val);
        assert forall c :: c in s[|key|..] ==> c in s;
      } else {
        ReplaceAllUnits(s[1..], key, val);
        assert forall c :: c in s[1..] ==> c in s;
      }
    }
  }

  lemma SkipsPrefixStep(a: Text, b: Text, key: Text, val: Text)
    requires |key| > 0 && a != [] && a[0] != key[0]
    requires ReplaceAll(a[1..] + b, key, val) == a[1..] + ReplaceAll(b, key, val)
    ensures ReplaceAll(a + b, key, val) == a + ReplaceAll(b, key, val)
  {
    var ab := a + b;
    assert ab[0] == a[0];
    assert !(key <= ab);
    assert ab[1..] == a[1..] + b;
    assert a == [a[0]] + a[1..];
    ConcatAssoc([a[0]], a[1..], ReplaceAll(b, key, val));
  }

  /** A prefix that does not contain the key's first code unit passes
      through a replacement untouched. */
  lemma {:induction false} ReplaceAllSkipsPrefix(a: Text, b: Text, key: Text, val: Text)
    requires |key| > 0 && key[0] !in a
    ensures ReplaceAll(a + b, key, val) == a + ReplaceAll(b, key, val)
    decreases |a|
  {
    if a == [] {
      assert a + b == b;
    } else {
      assert key[0] !in a[1..];
      ReplaceAllSkipsPrefix(a[1..], b, key, val);
      SkipsPrefixStep(a, b, key, val);
    }
  }

  /** An occurrence of the key at the start is replaced, and the scan
      resumes right after it. */
  lemma ReplaceAllLeadingKey(b: Text, key: Text, val: Text)
    requires |key| > 0
    ensures ReplaceAll(key + b, key, val) == val + ReplaceAll(b, key, val)
  {
    assert (key + b)[|key|..] == b;
  }

  /** No occurrence of the key starts inside `a` (it may start right after). */
  predicate NoneStartsIn(a: Text, rest: Text, key: Text) {
    forall j: nat :: j < |a| ==> !OccursAt(a + rest, key, j)
  }

  lemma FirstTail(a: Text, rest: Text, key: Text)
    requires |key| > 0 && a != [] && NoneStartsIn(a, rest, key)
    ensures !(key <= a + rest) && (a + rest)[1..] == a[1..] + rest
    ensures NoneStartsIn(a[1..], rest, key)
  {
    assert !OccursAt(a + rest, key, 0);
    assert (a + rest)[1..] == a[1..] + rest;
    forall j: nat | j < |a| - 1
      ensures !OccursAt(a[1..] + rest, key, j)
    {
      assert !OccursAt(a + rest, key, j + 1);
      if j + |key| <= |a[1..] + rest| {
        assert (a[1..] + rest)[j..j + |key|] == (a + rest)[j + 1..j + 1 + |key|];
      }
    }
  }

  lemma FirstStep(a: Text, rest: Text, key: Text, val: Text, b: Text)
    requires |key| > 0 && a != [] && rest == key + b && !(key <= a + rest)
    requires (a + rest)[1..] == a[1..] + rest
    requires ReplaceAll(a[1..] + rest, key, val) == a[1..] + val + ReplaceAll(b, key, val)
    ensures ReplaceAll(a + rest, key, val) == a + val + ReplaceAll(b, key, val)
  {
    assert a == [a[0]] + a[1..];
    ConcatAssoc([a[0]], a[1..], val);
    ConcatAssoc([a[0]], a[1..] + val, ReplaceAll(b, key, val));
  }

  /** The first occurrence of the key is the one replaced: the text before
      it is kept as it is, and the scan resumes right after it. */
  lemma {:induction false} ReplaceAllFirst(a: Text, key: Text, b: Text, val: Text)
    requires |key| > 0 && NoneStartsIn(a, key + b, key)
    ensures ReplaceAll(a + key + b, key, val) == a + val + ReplaceAll(b, key, val)
    decreases |a|
  {
    assert a + key + b == a + (key + b);
    if a == [] {
      assert a + (key + b) == key + b;
      ReplaceAllLeadingKey(b, key, val);
    } else {
      FirstTail(a, key + b, key);
      ReplaceAllFirst(a[1..], key, b, val);
      assert a[1..] + key + b == a[1..] + (key + b);
      FirstStep(a, key + b, key, val, b);
    }
  }

  /** Replacing one code unit by one code unit is a pointwise map. */
  lemma {:induction false} ReplaceUnitPointwise(s: Text, c: CodeUnit, d: CodeUnit)
    ensures var r := ReplaceAll(s, [c], [d]);
      |r| == |s| && forall i :: 0 <= i < |s| ==> r[i] == (if s[i] == c then d else s[i])
  {
    if s != [] {
      ReplaceUnitPointwise(s[1..], c, d);
      assert [c] <= s <==> s[0] == c;
    }
  }

  /** For a one-code-unit key the replacement works unit by unit, so it
      distributes over concatenation. */
  lemma {:induction false} ReplaceUnitConcat(a: Text, b: Text, c: CodeUnit, val: Text)
    ensures ReplaceAll(a + b, [c], val) == ReplaceAll(a, [c], val) + ReplaceAll(b, [c], val)
  {
    if a == [] {
      assert a + b == b;
    } else {
      assert (a + b)[1..] == a[1..] + b;
      assert [c] <= a + b <==> [c] <= a;
      ReplaceUnitConcat(a[1..], b, c, val);
    }
  }

  /** `Regex.Replace(s, "[^...]", "")`: keeps, in order, exactly the code
      units the class admits. */
  function Keep(s: Text, admit: CodeUnit -> bool): (r: Text)
    ensures forall i :: 0 <= i < |r| ==> admit(r[i])
    ensures |r| <= |s|
  {
    if s == [] then []
    else if admit(s[0]) then [s[0]] + Keep(s[1..], admit)
    else Keep(s[1..], admit)
  }

  /** The strip changes nothing exactly when the class admits every code
      unit. */
  lemma {:induction false} KeepIdentity(s: Text, admit: CodeUnit -> bool)
    ensures Keep(s, admit) == s <==> forall i :: 0 <= i < |s| ==> admit(s[i])
  {
    if s != [] && forall i :: 0 <= i < |s| ==> admit(s[i]) {
      KeepIdentity(s[1..], admit);
    }
  }

  /** The kept code units are exactly those of `s` the class admits. */
  lemma {:induction false} KeepContents(s: Text, admit: CodeUnit -> bool)
    ensures forall x :: x in Keep(s, admit) <==> x in s && admit(x)
  {
    if s != [] {
      KeepContents(s[1..], admit);
      assert s == [s[0]] + s[1..];
    }
  }

  /** Keeping distributes over concatenation. */
  lemma {:induction false} KeepConcat(a: Text, b: Text, admit: CodeUnit -> bool)
    ensures Keep(a + b, admit) == Keep(a, admit) + Keep(b, admit)
  {
    if a == [] {
      assert a + b == b;
    } else {
      assert (a + b)[1..] == a[1..] + b;
      KeepConcat(a[1..], b, admit);
    }
  }
}
