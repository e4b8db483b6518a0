/** The characters and keywords of query texts (ferret-core/src/query.rs). */
module QueryAlphabet {
  // Bytes are compared with the characters they stand for, and blank input with the White_Space property of the Unicode
  // Character Database, through UTF-8 as in RFC 3629, section 3.

  import opened Base
  import opened QueryGrammar

  ghost predicate Spells(b: bytes, s: string) {
    |b| == |s| && forall i :: 0 <= i < |b| ==> b[i] == s[i] as int
  }

  lemma Keywords()
    ensures Spells(KwOr(), "OR") && Spells(KwNot(), "NOT") && Spells(KwPath(), "path:")
    ensures Spells(KwLanguage(), "language:") && Spells(KwLang(), "lang:")
    ensures Spells(KwCase(), "case:") && Spells(KwCaseYes(), "case:yes")
    ensures Spells([QUOTE, SLASH, BACKSLASH], "\"/\\")
  {
  }

  /** Space, tab, line feed, form feed and carriage return, but not the vertical tab. */
  lemma Spacing(b: u8)
    ensures IsSpace(b) <==> exists i :: 0 <= i < 5 && b == " \t\n\U{000C}\r"[i] as int
    ensures LiteralByte(b) <==> !IsSpace(b) && b != '"' as int && b != '/' as int
    ensures Boundary([b]) <==> !LiteralByte(b)
  {
    var spacing := " \t\n\U{000C}\r";
    assert spacing[0] == ' ' && spacing[1] == '\t' && spacing[2] == '\n' && spacing[3] == '\U{000C}' && spacing[4] == '\r';
  }

  // ---- blank input ----

  predicate IsWhiteSpace(c: nat) {
    || 0x09 <= c <= 0x0D || c == 0x20 || c == 0x85 || c == 0xA0 || c == 0x1680 || 0x2000 <= c <= 0x200A
    || c == 0x2028 || c == 0x2029 || c == 0x202F || c == 0x205F || c == 0x3000
  }

  function Utf8(c: nat): bytes
    requires c < 0x1_0000
  {
    if c < 0x80 then [c]
    else if c < 0x800 then [0xC0 + c / 0x40, 0x80 + c % 0x40]
    else [0xE0 + c / 0x1000, 0x80 + c / 0x40 % 0x40, 0x80 + c % 0x40]
  }

  /** The text starts with a white space character of n bytes. */
  ghost predicate StartsBlank(s: bytes, n: nat) {
    exists c: nat :: c < 0x1_0000 && IsWhiteSpace(c) && Utf8(c) <= s && |Utf8(c)| == n
  }

  lemma BlankExactly(s: bytes, n: nat)
    ensures n > 0 && BlankLength(s) == n <==> StartsBlank(s, n)
  {
    if n > 0 && BlankLength(s) == n { BlankStarts(s); }
    forall c: nat | c < 0x1_0000 && IsWhiteSpace(c) && Utf8(c) <= s ensures BlankLength(s) == |Utf8(c)| > 0 {
      StartIsBlank(s, c);
    }
  }

  lemma BlankStarts(s: bytes)
    requires BlankLength(s) > 0
    ensures StartsBlank(s, BlankLength(s))
  {
    var n := BlankLength(s);
    var c: nat :=
      if n == 1 then s[0]
      else if n == 2 then s[1]
      else if s[0] == 0xE1 then 0x1680
      else if s[0] == 0xE3 then 0x3000
      else if s[1] == 0x81 then 0x205F
      else 0x2000 + s[2] as int - 0x80;
    assert IsWhiteSpace(c) && |Utf8(c)| == n;
    assert Utf8(c) <= s;
  }

  lemma StartIsBlank(s: bytes, c: nat)
    requires c < 0x1_0000 && IsWhiteSpace(c) && Utf8(c) <= s
    ensures BlankLength(s) == |Utf8(c)|
  {
    var u := Utf8(c);
    assert s[0] == u[0];
    if |u| > 1 { assert s[1] == u[1]; }
    if |u| > 2 { assert s[2] == u[2]; }
  }
}
