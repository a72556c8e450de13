/** UTF-16 code units, the character classes the two sanitisers test, and
    the ASCII-only lower-case fold used in place of the culture-sensitive
    `ToLower` calls of Sanitization.cs. */
module CodeUnits {

  /** A C# `char`: one UTF-16 code unit, surrogate halves included. */
  newtype CodeUnit = x: int | 0 <= x < 0x1_0000

  type Text = seq<CodeUnit>

  const Space: CodeUnit := 0x20
  const Hash: CodeUnit := 0x23
  const Hyphen: CodeUnit := 0x2D
  const Slash: CodeUnit := 0x2F
  const LeftBracket: CodeUnit := 0x5B
  const RightBracket: CodeUnit := 0x5D
  const Underscore: CodeUnit := 0x5F

  predicate IsDigit(c: CodeUnit) { 0x30 <= c <= 0x39 }
  predicate IsAsciiUpper(c: CodeUnit) { 0x41 <= c <= 0x5A }
  predicate IsAsciiLower(c: CodeUnit) { 0x61 <= c <= 0x7A }

  /** ASCII fold: A-Z become a-z, every other code unit is left alone. */
  function Lower(c: CodeUnit): (r: CodeUnit)
    ensures !IsAsciiUpper(r)
    ensures IsAsciiUpper(c) ==> IsAsciiLower(r) && r as int == c as int + 32
    ensures !IsAsciiUpper(c) ==> r == c
  {
    if IsAsciiUpper(c) then c + 0x20 else c
  }

  /** `String.ToLower`, restricted to the ASCII fold. */
  function ToLower(s: Text): (r: Text)
    ensures |r| == |s|
    ensures forall i :: 0 <= i < |s| ==> r[i] == Lower(s[i])
  {
    if s == [] then [] else [Lower(s[0])] + ToLower(s[1..])
  }

  /** Lower-casing is the identity exactly on texts without A-Z. */
  lemma ToLowerIdentity(s: Text)
    ensures ToLower(s) == s <==> forall i :: 0 <= i < |s| ==> !IsAsciiUpper(s[i])
  {
    if ToLower(s) == s {
      forall i | 0 <= i < |s| ensures !IsAsciiUpper(s[i]) {
        assert s[i] == ToLower(s)[i] == Lower(s[i]);
      }
    }
  }

  /** Concatenation re-bracketed; stated once so that proofs can name the
      step instead of leaving the solver to rediscover it. */
  lemma ConcatAssoc(p: Text, q: Text, r: Text)
    ensures p + (q + r) == (p + q) + r
  {
  }

  lemma ToLowerConcat(a: Text, b: Text)
    ensures ToLower(a + b) == ToLower(a) + ToLower(b)
  {
  }
}
