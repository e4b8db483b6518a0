/** Case-folded trigram extraction (ferret-core/src/trigram.rs). */
module Trigrams {
  import opened Base

  datatype Trigram = Trigram(a: u8, b: u8, c: u8) {
    /** Sort key of the on-disk table: the three bytes packed big-endian. */
    function Code(): u32 { a as int * 0x1_0000 + b as int * 0x100 + c as int }
  }

  lemma CodeInjective(s: Trigram, t: Trigram)
    ensures s.Code() == t.Code() ==> s == t
  {
    var high, high' := s.a * 0x100 + s.b, t.a * 0x100 + t.b;
    assert s.Code() == 0x100 * high + s.c && t.Code() == 0x100 * high' + t.c;
  }

  /** The order of the codes is the order of the bytes, the first byte counting most. */
  lemma CodeOrder(s: Trigram, t: Trigram)
    ensures s.Code() < t.Code() <==>
            s.a < t.a || (s.a == t.a && s.b < t.b) || (s.a == t.a && s.b == t.b && s.c < t.c)
  {
    var high, high' := s.a * 0x100 + s.b, t.a * 0x100 + t.b;
    assert s.Code() == 0x100 * high + s.c && t.Code() == 0x100 * high' + t.c;
  }

  function FoldByte(b: u8): u8 {
    if 0x41 <= b <= 0x5A then b + 0x20 else b
  }

  /** Letter n of the alphabet in either case. */
  predicate IsLetter(b: u8, n: nat) {
    n < 26 && (b == 'A' as int + n || b == 'a' as int + n)
  }

  /** Folding joins the two cases of each of the 26 letters and nothing else, and never leaves a capital. */
  lemma FoldsAlike(a: u8, b: u8)
    ensures FoldByte(a) == FoldByte(b) <==> a == b || exists n: nat :: IsLetter(a, n) && IsLetter(b, n)
    ensures FoldByte(FoldByte(a)) == FoldByte(a) && !('A' as int <= FoldByte(a) <= 'Z' as int)
  {
    if FoldByte(a) == FoldByte(b) && a != b {
      var n := FoldByte(a) - 'a' as int;
      assert IsLetter(a, n) && IsLetter(b, n);
    }
  }

  function Fold(text: bytes): (r: bytes)
    ensures |r| == |text| && forall i :: 0 <= i < |text| ==> r[i] == FoldByte(text[i])
  {
    seq(|text|, i requires 0 <= i < |text| => FoldByte(text[i]))
  }

  function TrigramAt(text: bytes, i: nat): Trigram
    requires i + 3 <= |text|
  {
    Trigram(FoldByte(text[i]), FoldByte(text[i + 1]), FoldByte(text[i + 2]))
  }

  /** One trigram per three-byte window, in order; none for a text shorter than three bytes. */
  function FoldedTrigrams(text: bytes): (r: seq<Trigram>)
    ensures |r| == if |text| < 3 then 0 else |text| - 2
    ensures forall i :: 0 <= i < |r| ==> r[i] == TrigramAt(text, i)
  {
    if |text| < 3 then [] else seq(|text| - 2, i requires 0 <= i < |text| - 2 => TrigramAt(text, i))
  }

  /** extract_unique_trigrams_folded: the windows as a set. */
  function FoldedSet(text: bytes): set<Trigram> {
    set t | t in FoldedTrigrams(text)
  }

  predicate FoldsTo(content: bytes, at: int, text: bytes) {
    0 <= at <= |content| - |text| && Fold(content[at..at + |text|]) == Fold(text)
  }

  ghost predicate OccursFolded(text: bytes, content: bytes) {
    exists i :: FoldsTo(content, i, text)
  }

  lemma WindowFolded(text: bytes, content: bytes, i: nat, k: nat)
    requires FoldsTo(content, i, text) && k + 3 <= |text|
    ensures TrigramAt(content, i + k) == TrigramAt(text, k)
  {
    var w := content[i..i + |text|];
    assert Fold(w)[k] == FoldByte(w[k]) && Fold(text)[k] == FoldByte(text[k]);
    assert Fold(w)[k + 1] == FoldByte(w[k + 1]) && Fold(text)[k + 1] == FoldByte(text[k + 1]);
    assert Fold(w)[k + 2] == FoldByte(w[k + 2]) && Fold(text)[k + 2] == FoldByte(text[k + 2]);
  }

  /** A text that occurs in a content up to ASCII case brings all its trigrams with it. */
  lemma OccurrenceHasTrigrams(text: bytes, content: bytes)
    requires OccursFolded(text, content)
    ensures FoldedSet(text) <= FoldedSet(content)
  {
    hide TrigramAt, FoldsTo;
    var i :| FoldsTo(content, i, text);
    assert 0 <= i <= |content| - |text| by { FoldsToInside(content, i, text); }
    forall t | t in FoldedSet(text) ensures t in FoldedSet(content) {
      var k :| 0 <= k < |FoldedTrigrams(text)| && FoldedTrigrams(text)[k] == t;
      WindowFolded(text, content, i, k);
      assert FoldedTrigrams(content)[i + k] == TrigramAt(content, i + k);
    }
  }

  lemma FoldsToInside(content: bytes, at: int, text: bytes)
    requires FoldsTo(content, at, text)
    ensures 0 <= at <= |content| - |text|
  {
  }
}
