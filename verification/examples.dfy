/** Concrete inputs and outputs of both sanitisers. Each example takes its
    input as a parameter pinned by its precondition; the comment beside a
    display gives its characters. The general lemmas reduce the pipeline to
    one step, and a small lemma evaluates that step on the display. */
module Examples {
  import opened CodeUnits
  import opened TextOps
  import opened CssIdentifier
  import opened CssProperties
  import opened HtmlId

  lemma FixDigit(s: Text)
    requires s == [0x31, 0x32, 0x33, 0x61, 0x62, 0x63]
    ensures FixLeading(s) == [0x5F, 0x32, 0x33, 0x61, 0x62, 0x63]
  {
  }

  lemma CssLeadingDigit(s: Text)
    requires s == [0x31, 0x32, 0x33, 0x61, 0x62, 0x63]                            // "123abc"
    ensures CleanCssIdentifier(s, None) == [0x5F, 0x32, 0x33, 0x61, 0x62, 0x63]  // "_23abc"
  {
    CleanPlain(s);
    FixDigit(s);
  }

  lemma FixDoubleHyphen(s: Text)
    requires s == [0x2D, 0x2D, 0x61, 0x62, 0x63]
    ensures FixLeading(s) == [0x5F, 0x61, 0x62, 0x63]
  {
  }

  lemma CssLeadingDoubleHyphen(s: Text)
    requires s == [0x2D, 0x2D, 0x61, 0x62, 0x63]                      // "--abc"
    ensures CleanCssIdentifier(s, None) == [0x5F, 0x61, 0x62, 0x63]  // "_abc"
  {
    CleanPlain(s);
    FixDoubleHyphen(s);
  }

  lemma FixHyphenDigit(s: Text)
    requires s == [0x2D, 0x31, 0x61, 0x62, 0x63]
    ensures FixLeading(s) == [0x5F, 0x61, 0x62, 0x63]
  {
  }

  lemma CssLeadingHyphenDigit(s: Text)
    requires s == [0x2D, 0x31, 0x61, 0x62, 0x63]                      // "-1abc"
    ensures CleanCssIdentifier(s, None) == [0x5F, 0x61, 0x62, 0x63]  // "_abc"
  {
    CleanPlain(s);
    FixHyphenDigit(s);
  }

  lemma CssKeepsPair(a: Text, b: Text)
    requires a == [0x6D, 0x79] && b == [0x63, 0x6C, 0x61, 0x73, 0x73]  // "my", "class"
    ensures CleanCssIdentifier(a + DoubleUnderscore + b, None) == a + DoubleUnderscore + b
  {
    CleanKeepsDoubleUnderscore(a, b);
  }

  /** A unit that does not start a `__` pair is scanned on its own. */
  lemma UnitScan(c: CodeUnit, rest: Text)
    requires c != Underscore || rest == [] || rest[0] != Underscore
    ensures DefaultScan([c] + rest) == DefaultUnit(c) + DefaultScan(rest)
  {
    var s := [c] + rest;
    assert s[0] == c && s[1..] == rest;
    assert |s| >= 2 ==> s[1] == rest[0];
    ScanUnit(s);
  }

  /** A word of letters followed by one separator scans to the word and
      the separator's replacement. */
  lemma WordThenUnit(w: Text, c: CodeUnit, rest: Text)
    requires forall i :: 0 <= i < |w| ==> IsAsciiUpper(w[i]) || IsAsciiLower(w[i])
    requires c != Underscore
    ensures DefaultScan(w + [c] + rest) == w + DefaultUnit(c) + DefaultScan(rest)
  {
    ConcatAssoc(w, [c], rest);
    DefaultScanAlnumPrefix(w, [c] + rest);
    UnitScan(c, rest);
    ConcatAssoc(w, DefaultUnit(c), DefaultScan(rest));
  }

  /** "My Class[Name]" scans to "My-Class-Name". */
  lemma MyClassNameScan(w1: Text, w2: Text, w3: Text)
    requires w1 == [0x4D, 0x79] && w2 == [0x43, 0x6C, 0x61, 0x73, 0x73] && w3 == [0x4E, 0x61, 0x6D, 0x65]
    ensures DefaultScan(w1 + [Space] + (w2 + [LeftBracket] + (w3 + [RightBracket] + [])))
         == w1 + [Hyphen] + (w2 + [Hyphen] + (w3 + []))
  {
    WordThenUnit(w3, RightBracket, []);
    WordThenUnit(w2, LeftBracket, w3 + [RightBracket] + []);
    WordThenUnit(w1, Space, w2 + [LeftBracket] + (w3 + [RightBracket] + []));
  }

  lemma MyClassNameKeep(s: Text)
    requires s == [0x4D, 0x79, 0x2D, 0x43, 0x6C, 0x61, 0x73, 0x73, 0x2D, 0x4E, 0x61, 0x6D, 0x65]
    ensures Keep(s, IsCssChar) == s
  {
    KeepIdentity(s, IsCssChar);
  }

  lemma MyClassNameFix(s: Text)
    requires s == [0x4D, 0x79, 0x2D, 0x43, 0x6C, 0x61, 0x73, 0x73, 0x2D, 0x4E, 0x61, 0x6D, 0x65]
    ensures FixLeading(s) == s
  {
  }

  lemma MyClassNameLower(s: Text)
    requires s == [0x4D, 0x79, 0x2D, 0x43, 0x6C, 0x61, 0x73, 0x73, 0x2D, 0x4E, 0x61, 0x6D, 0x65]  // "My-Class-Name"
    ensures ToLower(s) == [0x6D, 0x79, 0x2D, 0x63, 0x6C, 0x61, 0x73, 0x73, 0x2D, 0x6E, 0x61, 0x6D, 0x65]  // "my-class-name"
  {
  }

  lemma MyClassNameHashFree(s: Text)
    requires s == [0x4D, 0x79, 0x20, 0x43, 0x6C, 0x61, 0x73, 0x73, 0x5B, 0x4E, 0x61, 0x6D, 0x65, 0x5D]
    ensures Hash !in s
  {
    assert forall i :: 0 <= i < |s| ==> s[i] != Hash;
  }

  lemma MyClassNameParts(w1: Text, w2: Text, w3: Text)
    requires w1 == [0x4D, 0x79] && w2 == [0x43, 0x6C, 0x61, 0x73, 0x73] && w3 == [0x4E, 0x61, 0x6D, 0x65]
    ensures w1 + [Space] + (w2 + [LeftBracket] + (w3 + [RightBracket] + []))
         == [0x4D, 0x79, 0x20, 0x43, 0x6C, 0x61, 0x73, 0x73, 0x5B, 0x4E, 0x61, 0x6D, 0x65, 0x5D]
    ensures w1 + [Hyphen] + (w2 + [Hyphen] + (w3 + []))
         == [0x4D, 0x79, 0x2D, 0x43, 0x6C, 0x61, 0x73, 0x73, 0x2D, 0x4E, 0x61, 0x6D, 0x65]
  {
  }

  lemma CssDefaultTable(s: Text)
    requires s == [0x4D, 0x79, 0x20, 0x43, 0x6C, 0x61, 0x73, 0x73, 0x5B, 0x4E, 0x61, 0x6D, 0x65, 0x5D]  // "My Class[Name]"
    ensures CleanCssIdentifier(s, None)
         == [0x6D, 0x79, 0x2D, 0x63, 0x6C, 0x61, 0x73, 0x73, 0x2D, 0x6E, 0x61, 0x6D, 0x65]            // "my-class-name"
  {
    var w1: Text, w2: Text, w3: Text := [0x4D, 0x79], [0x43, 0x6C, 0x61, 0x73, 0x73], [0x4E, 0x61, 0x6D, 0x65];
    var scanned: Text := [0x4D, 0x79, 0x2D, 0x43, 0x6C, 0x61, 0x73, 0x73, 0x2D, 0x4E, 0x61, 0x6D, 0x65];
    MyClassNameParts(w1, w2, w3);
    MyClassNameScan(w1, w2, w3);
    MyClassNameHashFree(s);
    CleanViaScan(s, scanned);
    MyClassNameKeep(scanned);
    MyClassNameFix(scanned);
    MyClassNameLower(scanned);
  }

  lemma TripleUnderscoreScan(s: Text)
    requires s == [Underscore, Underscore, Underscore]
    ensures DefaultScan(s) == [Underscore, Underscore, Hyphen]
    ensures Hash !in s
  {
    ScanPair(s);
    assert s[2..] == [Underscore] + [];
    UnitScan(Underscore, []);
  }

  /** Left-to-right replacement pairs the first two of three underscores. */
  lemma CssTripleUnderscore(s: Text)
    requires s == [Underscore, Underscore, Underscore]             // "___"
    ensures CleanCssIdentifier(s, None) == [Underscore, Underscore, Hyphen]  // "__-"
  {
    TripleUnderscoreScan(s);
    assert FixLeading([Underscore, Underscore, Hyphen]) == [Underscore, Underscore, Hyphen];
    CleanViaPlainScan(s, [Underscore, Underscore, Hyphen]);
  }

  /** A literal `##` comes out as `__`. */
  lemma CssHashesBecomeUnderscores(a: Text, b: Text)
    requires a == [0x61] && b == [0x62]                       // "a", "b"
    ensures CleanCssIdentifier(a + Placeholder + b, None) == a + DoubleUnderscore + b
  {
    DefaultFilterFacts();
    PlaceholderCollision(a, b, None);
    CleanKeepsDoubleUnderscore(a, b);
  }

  /** Hiding the pair in "#__#" yields four `#`. */
  lemma HashPairHidden(s: Text)
    requires s == [Hash, Underscore, Underscore, Hash]
    ensures ReplaceAll(s, DoubleUnderscore, Placeholder) == Placeholder + Placeholder
  {
    assert s == [Hash] + DoubleUnderscore + [Hash];
    var whole := [Hash] + (DoubleUnderscore + [Hash]);
    assert whole[0..2][0] == Hash;
    assert !OccursAt(whole, DoubleUnderscore, 0);
    ReplaceAllFirst([Hash], DoubleUnderscore, [Hash], Placeholder);
    ReplaceAllSkipsPrefix([Hash], [], DoubleUnderscore, Placeholder);
    assert [Hash] + [] == [Hash];
  }

  /** The default rules leave four `#` alone, and the restore turns them
      into four `_`. */
  lemma FourHashesRestored()
    ensures ReplaceAll(ApplyRules(Placeholder + Placeholder, DefaultFilter), Placeholder, DoubleUnderscore)
         == DoubleUnderscore + DoubleUnderscore
  {
    DefaultFilterFacts();
    ApplyUnitRulesConcat(Placeholder, Placeholder, DefaultFilter);
    DefaultRulesOnPlaceholder();
    ReplaceAllLeadingKey(Placeholder, Placeholder, DoubleUnderscore);
    ReplaceAllLeadingKey([], Placeholder, DoubleUnderscore);
    assert Placeholder + [] == Placeholder;
  }

  /** A `#` next to a `__` pair ends up inside a restored `__`: the pair is
      hidden as `##`, and the restore then pairs every `#` it meets. */
  lemma CssHashesAroundPair(s: Text)
    requires s == [Hash, Underscore, Underscore, Hash]                     // "#__#"
    ensures CleanCssIdentifier(s, None) == [Underscore, Underscore, Underscore, Underscore]  // "____"
  {
    var t: Text := [Underscore, Underscore, Underscore, Underscore];
    HashPairHidden(s);
    FourHashesRestored();
    DefaultSubstitute(s);
    assert DoubleUnderscore + DoubleUnderscore == t;
    assert FixLeading(t) == t;
    CleanSubstitutedPlain(s, t);
  }

  lemma LeadingUnderscoreScan(t: Text)
    requires t == [Underscore, 0x78]
    ensures DefaultScan(t) == [Hyphen, 0x78]
    ensures Hash !in t
  {
    assert t == [Underscore] + [0x78];
    UnitScan(Underscore, [0x78]);
    assert [0x78] == [0x78] + [];
    UnitScan(0x78, []);
  }

  lemma CssLeadingUnderscore(t: Text)
    requires t == [Underscore, 0x78]                        // "_x"
    ensures CleanCssIdentifier(t, None) == [Hyphen, 0x78]   // "-x"
  {
    LeadingUnderscoreScan(t);
    assert FixLeading([Hyphen, 0x78]) == [Hyphen, 0x78];
    CleanViaPlainScan(t, [Hyphen, 0x78]);
  }

  /** The `_` a first pass puts in front becomes `-` on a second pass. */
  lemma CssNotIdempotent(s: Text)
    requires s == [0x31, 0x78]  // "1x"
    ensures CleanCssIdentifier(s, None) == [Underscore, 0x78]
    ensures CleanCssIdentifier(CleanCssIdentifier(s, None), None) == [Hyphen, 0x78]
  {
    CleanPlain(s);
    assert FixLeading(s) == [Underscore, 0x78];
    CssLeadingUnderscore([Underscore, 0x78]);
  }

  lemma HelloLower(s: Text)
    requires s == [0x48, 0x65, 0x6C, 0x6C, 0x6F, 0x2D, 0x57, 0x6F, 0x72, 0x6C, 0x64, 0x2D,
                   0x54, 0x65, 0x73, 0x74, 0x2D, 0x31, 0x2D]
    ensures ToLower(s) == [0x68, 0x65, 0x6C, 0x6C, 0x6F, 0x2D, 0x77, 0x6F, 0x72, 0x6C, 0x64, 0x2D,
                           0x74, 0x65, 0x73, 0x74, 0x2D, 0x31, 0x2D]       // "hello-world-test-1-"
  {
  }

  lemma HelloKeep(s: Text)
    requires s == [0x68, 0x65, 0x6C, 0x6C, 0x6F, 0x2D, 0x77, 0x6F, 0x72, 0x6C, 0x64, 0x2D,
                   0x74, 0x65, 0x73, 0x74, 0x2D, 0x31, 0x2D]
    ensures Keep(s, IsIdChar) == s
  {
    KeepIdentity(s, IsIdChar);
  }

  lemma HelloCollapse(s: Text)
    requires s == [0x68, 0x65, 0x6C, 0x6C, 0x6F, 0x2D, 0x77, 0x6F, 0x72, 0x6C, 0x64, 0x2D,
                   0x74, 0x65, 0x73, 0x74, 0x2D, 0x31, 0x2D]
    ensures CollapseHyphens(s) == s
  {
    assert NoDoubleHyphen(s);
  }

  lemma IdSeparators(s: Text)
    requires s == [0x48, 0x65, 0x6C, 0x6C, 0x6F, 0x20, 0x57, 0x6F, 0x72, 0x6C, 0x64, 0x5F,
                   0x54, 0x65, 0x73, 0x74, 0x5B, 0x31, 0x5D]           // "Hello World_Test[1]"
    ensures CleanID(s) == [0x68, 0x65, 0x6C, 0x6C, 0x6F, 0x2D, 0x77, 0x6F, 0x72, 0x6C, 0x64, 0x2D,
                           0x74, 0x65, 0x73, 0x74, 0x2D, 0x31, 0x2D]       // "hello-world-test-1-"
  {
    HelloLower(MapSeparators(s));
    HelloKeep(ToLower(MapSeparators(s)));
    HelloCollapse(ToLower(MapSeparators(s)));
  }

  lemma CollapseRun(s: Text)
    requires s == [0x61, Hyphen, Hyphen, Hyphen, 0x62]
    ensures CollapseHyphens(s) == [0x61, Hyphen, 0x62]
  {
    var tail: Text := [Hyphen, 0x62];
    assert CollapseHyphens(tail) == tail by {
      assert NoDoubleHyphen(tail);
    }
    assert CollapseHyphens([Hyphen] + tail) == tail by {
      assert ([Hyphen] + tail)[1..] == tail;
    }
    assert CollapseHyphens([Hyphen, Hyphen] + tail) == tail by {
      assert ([Hyphen, Hyphen] + tail)[1..] == [Hyphen] + tail;
    }
    assert s[1..] == [Hyphen, Hyphen] + tail;
  }

  lemma IdCollapse(s: Text)
    requires s == [0x61, Hyphen, Hyphen, Hyphen, 0x62]  // "a---b"
    ensures CleanID(s) == [0x61, Hyphen, 0x62]          // "a-b"
  {
    assert forall i :: 0 <= i < |s| ==> IsIdOutputChar(s[i]);
    CleanIDOfIdText(s);
    CollapseRun(s);
  }

  lemma DropColon(s: Text, s1: Text)
    requires s == [0x61, 0x3A, 0x62, 0x2E, 0x63] && s1 == [0x61, 0x62, 0x2E, 0x63]  // "a:b.c", "ab.c"
    ensures CleanID(s) == CleanID(s1)
  {
    assert s == [0x61] + [0x3A] + [0x62, 0x2E, 0x63];
    assert s1 == [0x61] + [0x62, 0x2E, 0x63];
    CleanIDDropsUnit([0x61], 0x3A, [0x62, 0x2E, 0x63]);
  }

  lemma DropPeriod(s1: Text, s2: Text)
    requires s1 == [0x61, 0x62, 0x2E, 0x63] && s2 == [0x61, 0x62, 0x63]  // "ab.c", "abc"
    ensures CleanID(s1) == CleanID(s2)
  {
    assert s1 == [0x61, 0x62] + [0x2E] + [0x63];
    assert s2 == [0x61, 0x62] + [0x63];
    CleanIDDropsUnit([0x61, 0x62], 0x2E, [0x63]);
  }

  lemma PlainIdText(s: Text)
    requires s == [0x61, 0x62, 0x63]
    ensures CleanID(s) == s
  {
    assert forall i :: 0 <= i < |s| ==> IsIdOutputChar(s[i]);
    assert NoDoubleHyphen(s);
    CleanIDOfIdText(s);
  }

  /** ':' and '.' are neither mapped nor kept. */
  lemma IdDropsColonAndPeriod(s: Text)
    requires s == [0x61, 0x3A, 0x62, 0x2E, 0x63]   // "a:b.c"
    ensures CleanID(s) == [0x61, 0x62, 0x63]       // "abc"
  {
    var s1: Text, s2: Text := [0x61, 0x62, 0x2E, 0x63], [0x61, 0x62, 0x63];
    DropColon(s, s1);
    DropPeriod(s1, s2);
    PlainIdText(s2);
  }
}
