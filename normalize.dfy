/** The text normaliser of the search engine (`normalize_farsi`): Arabic
    letter forms that Persian text writes interchangeably are folded to the
    Persian form, and Persian and Arabic-Indic digits are folded to ASCII
    digits, one character for one character. */
module FarsiText {

  const ArabicYeh: char := '\U{064A}'      // ARABIC LETTER YEH
  const AlefMaksura: char := '\U{0649}'    // ARABIC LETTER ALEF MAKSURA
  const YehHamza: char := '\U{0626}'       // ARABIC LETTER YEH WITH HAMZA ABOVE
  const FarsiYeh: char := '\U{06CC}'       // ARABIC LETTER FARSI YEH
  const ArabicKaf: char := '\U{0643}'      // ARABIC LETTER KAF
  const Keheh: char := '\U{06A9}'          // ARABIC LETTER KEHEH (Persian kaf)
  const PersianZero: char := '\U{06F0}'    // EXTENDED ARABIC-INDIC DIGIT ZERO
  const ArabicIndicZero: char := '\U{0660}' // ARABIC-INDIC DIGIT ZERO

  /** The Persian digit of value d (U+06F0 ... U+06F9). */
  function PersianDigit(d: nat): char
    requires d < 10
  {
    (PersianZero as int + d) as char
  }

  /** The Arabic-Indic digit of value d (U+0660 ... U+0669). */
  function ArabicIndicDigit(d: nat): char
    requires d < 10
  {
    (ArabicIndicZero as int + d) as char
  }

  /** The ASCII digit of value d. */
  function AsciiDigit(d: nat): char
    requires d < 10
  {
    ('0' as int + d) as char
  }

  /** The ASCII digit of the same value as c, a digit of the digit system
      whose zero is `zero` (c itself when it is none). */
  function DigitToAscii(c: char, zero: char): char {
    var v := c as int - zero as int;
    if 0 <= v < 10 then ('0' as int + v) as char else c
  }

  predicate IsPersianDigit(c: char) {
    PersianZero <= c <= '\U{06F9}'
  }

  predicate IsArabicIndicDigit(c: char) {
    ArabicIndicZero <= c <= '\U{0669}'
  }

  /** The characters the normaliser rewrites to something else. */
  predicate IsVariant(c: char) {
    c == ArabicYeh || c == AlefMaksura || c == YehHamza || c == ArabicKaf
    || IsPersianDigit(c) || IsArabicIndicDigit(c)
  }

  /** The canonical representative of one character. */
  function FoldChar(c: char): (r: char)
    ensures !IsVariant(r)
    ensures !IsVariant(c) ==> r == c
    ensures c == ArabicYeh || c == AlefMaksura || c == YehHamza ==> r == FarsiYeh
    ensures c == ArabicKaf ==> r == Keheh
    ensures IsPersianDigit(c) || IsArabicIndicDigit(c) ==> '0' <= r <= '9'
  {
    if c == ArabicYeh || c == AlefMaksura || c == YehHamza then FarsiYeh
    else if c == ArabicKaf then Keheh
    else if IsPersianDigit(c) then DigitToAscii(c, PersianZero)
    else if IsArabicIndicDigit(c) then DigitToAscii(c, ArabicIndicZero)
    else c
  }

  /** Every variant digit folds to the ASCII digit of the same value. */
  lemma FoldDigitValue(d: nat)
    requires d < 10
    ensures FoldChar(PersianDigit(d)) == AsciiDigit(d)
    ensures FoldChar(ArabicIndicDigit(d)) == AsciiDigit(d)
  {
  }

  /** Folding a canonical character changes nothing. */
  lemma FoldCharIdempotent(c: char)
    ensures FoldChar(FoldChar(c)) == FoldChar(c)
  {
  }

  /** The normaliser: every character replaced by its canonical form. */
  function Normalize(s: string): (r: string)
    ensures |r| == |s|
  {
    if s == [] then [] else [FoldChar(s[0])] + Normalize(s[1..])
  }

  /** Normalisation keeps positions: the character at i is the fold of the
      input's character at i. */
  lemma {:induction false} NormalizeAt(s: string, i: nat)
    requires i < |s|
    ensures Normalize(s)[i] == FoldChar(s[i])
  {
    if i > 0 {
      NormalizeAt(s[1..], i - 1);
    }
  }

  /** No variant character survives normalisation. */
  lemma NormalizeCanonical(s: string)
    ensures forall i :: 0 <= i < |s| ==> !IsVariant(Normalize(s)[i])
  {
    forall i | 0 <= i < |s| ensures !IsVariant(Normalize(s)[i]) {
      NormalizeAt(s, i);
    }
  }

  /** Text that holds no variant character is left exactly as it is. */
  lemma NormalizeFixesCanonical(s: string)
    requires forall i :: 0 <= i < |s| ==> !IsVariant(s[i])
    ensures Normalize(s) == s
  {
    forall i | 0 <= i < |s| ensures Normalize(s)[i] == s[i] {
      NormalizeAt(s, i);
    }
  }

  /** Normalisation is idempotent. */
  lemma NormalizeIdempotent(s: string)
    ensures Normalize(Normalize(s)) == Normalize(s)
  {
    NormalizeCanonical(s);
    NormalizeFixesCanonical(Normalize(s));
  }

  /** Normalisation is a homomorphism of concatenation, so it can be applied
      line by line or to a whole text alike. */
  lemma {:induction false} NormalizeConcat(a: string, b: string)
    ensures Normalize(a + b) == Normalize(a) + Normalize(b)
  {
    if a == [] {
      assert a + b == b;
    } else {
      assert (a + b)[0] == a[0];
      assert (a + b)[1..] == a[1..] + b;
      NormalizeConcat(a[1..], b);
    }
  }

  /** `str::replace` with a character pattern: every occurrence of `from`
      replaced by the string `to`. */
  function ReplaceChar(s: string, from: char, to: string): (r: string)
    ensures |to| == 1 ==> |r| == |s|
    ensures |to| == 1 ==> forall i :: 0 <= i < |s| ==> r[i] == (if s[i] == from then to[0] else s[i])
    ensures from !in to ==> from !in r
  {
    if s == [] then []
    else (if s[0] == from then to else [s[0]]) + ReplaceChar(s[1..], from, to)
  }

  /** One replacement on one character. */
  function Swap(c: char, from: char, to: char): char {
    if c == from then to else c
  }

  /** Lines 18-22 of the replacement chain, on one character. */
  function LettersChar(c: char): char {
    Swap(Swap(Swap(Swap(Swap(c, ArabicYeh, FarsiYeh), AlefMaksura, FarsiYeh), YehHamza, FarsiYeh), ArabicKaf, Keheh), Keheh, Keheh)
  }

  /** Lines 23-27 of the replacement chain, on one character. */
  function PersianLowChar(c: char): char {
    Swap(Swap(Swap(Swap(Swap(c, '\U{06F0}', '0'), '\U{06F1}', '1'), '\U{06F2}', '2'), '\U{06F3}', '3'), '\U{06F4}', '4')
  }

  /** Lines 28-32 of the replacement chain, on one character. */
  function PersianHighChar(c: char): char {
    Swap(Swap(Swap(Swap(Swap(c, '\U{06F5}', '5'), '\U{06F6}', '6'), '\U{06F7}', '7'), '\U{06F8}', '8'), '\U{06F9}', '9')
  }

  /** Lines 33-37 of the replacement chain, on one character. */
  function ArabicIndicLowChar(c: char): char {
    Swap(Swap(Swap(Swap(Swap(c, '\U{0660}', '0'), '\U{0661}', '1'), '\U{0662}', '2'), '\U{0663}', '3'), '\U{0664}', '4')
  }

  /** Lines 38-42 of the replacement chain, on one character. */
  function ArabicIndicHighChar(c: char): char {
    Swap(Swap(Swap(Swap(Swap(c, '\U{0665}', '5'), '\U{0666}', '6'), '\U{0667}', '7'), '\U{0668}', '8'), '\U{0669}', '9')
  }

  /** The whole chain of 25 replacements, on one character. */
  function ChainChar(c: char): char {
    ArabicIndicHighChar(ArabicIndicLowChar(PersianHighChar(PersianLowChar(LettersChar(c)))))
  }

  /** Lines 18-22 of the replacement chain: the letter variants, in the
      source's order, including the step that maps Persian kaf to itself. */
  function ReplaceLetters(input: string): (r: string)
    ensures |r| == |input|
    ensures forall i :: 0 <= i < |input| ==> r[i] == LettersChar(input[i])
  {
    var s := ReplaceChar(input, ArabicYeh, [FarsiYeh]);
    var s := ReplaceChar(s, AlefMaksura, [FarsiYeh]);
    var s := ReplaceChar(s, YehHamza, [FarsiYeh]);
    var s := ReplaceChar(s, ArabicKaf, [Keheh]);
    ReplaceChar(s, Keheh, [Keheh])
  }

  /** Lines 23-27 of the replacement chain. */
  function ReplacePersianDigitsLow(input: string): (r: string)
    ensures |r| == |input|
    ensures forall i :: 0 <= i < |input| ==> r[i] == PersianLowChar(input[i])
  {
    var s := ReplaceChar(input, '\U{06F0}', "0");
    var s := ReplaceChar(s, '\U{06F1}', "1");
    var s := ReplaceChar(s, '\U{06F2}', "2");
    var s := ReplaceChar(s, '\U{06F3}', "3");
    ReplaceChar(s, '\U{06F4}', "4")
  }

  /** Lines 28-32 of the replacement chain. */
  function ReplacePersianDigitsHigh(input: string): (r: string)
    ensures |r| == |input|
    ensures forall i :: 0 <= i < |input| ==> r[i] == PersianHighChar(input[i])
  {
    var s := ReplaceChar(input, '\U{06F5}', "5");
    var s := ReplaceChar(s, '\U{06F6}', "6");
    var s := ReplaceChar(s, '\U{06F7}', "7");
    var s := ReplaceChar(s, '\U{06F8}', "8");
    ReplaceChar(s, '\U{06F9}', "9")
  }

  /** Lines 33-37 of the replacement chain. */
  function ReplaceArabicIndicDigitsLow(input: string): (r: string)
    ensures |r| == |input|
    ensures forall i :: 0 <= i < |input| ==> r[i] == ArabicIndicLowChar(input[i])
  {
    var s := ReplaceChar(input, '\U{0660}', "0");
    var s := ReplaceChar(s, '\U{0661}', "1");
    var s := ReplaceChar(s, '\U{0662}', "2");
    var s := ReplaceChar(s, '\U{0663}', "3");
    ReplaceChar(s, '\U{0664}', "4")
  }

  /** Lines 38-42 of the replacement chain. */
  function ReplaceArabicIndicDigitsHigh(input: string): (r: string)
    ensures |r| == |input|
    ensures forall i :: 0 <= i < |input| ==> r[i] == ArabicIndicHighChar(input[i])
  {
    var s := ReplaceChar(input, '\U{0665}', "5");
    var s := ReplaceChar(s, '\U{0666}', "6");
    var s := ReplaceChar(s, '\U{0667}', "7");
    var s := ReplaceChar(s, '\U{0668}', "8");
    ReplaceChar(s, '\U{0669}', "9")
  }

  /** The normaliser as the source writes it: the chain of 25 replacements
      in the source's order. */
  function NormalizeChain(input: string): (r: string)
    ensures |r| == |input|
  {
    var letters := ReplaceLetters(input);
    var persian := ReplacePersianDigitsHigh(ReplacePersianDigitsLow(letters));
    ReplaceArabicIndicDigitsHigh(ReplaceArabicIndicDigitsLow(persian))
  }

  /** The chain rewrites each character on its own: the character at i of
      the result is the chain applied to the input's character at i. */
  lemma NormalizeChainAt(s: string, i: nat)
    requires i < |s|
    ensures |NormalizeChain(s)| == |s|
    ensures NormalizeChain(s)[i] == ChainChar(s[i])
  {
    var letters := ReplaceLetters(s);
    var persianLow := ReplacePersianDigitsLow(letters);
    var persian := ReplacePersianDigitsHigh(persianLow);
    var arabicLow := ReplaceArabicIndicDigitsLow(persian);
    assert NormalizeChain(s) == ReplaceArabicIndicDigitsHigh(arabicLow);
  }

  /** On one character the chain is the fold: no replacement produces a
      character that a later step rewrites, so each character is rewritten
      at most once, and to its canonical form. */
  lemma ChainCharIsFold(c: char)
    ensures ChainChar(c) == FoldChar(c)
  {
    if IsPersianDigit(c) {
      assert LettersChar(c) == c;
    } else if IsArabicIndicDigit(c) {
      assert PersianHighChar(PersianLowChar(LettersChar(c))) == c;
    } else {
      assert LettersChar(c) == FoldChar(c);
    }
  }

  /** The chain of replacements computes the per-character fold. */
  lemma ChainIsNormalize(s: string)
    ensures NormalizeChain(s) == Normalize(s)
  {
    assert |NormalizeChain(s)| == |s|;
    forall i | 0 <= i < |s| ensures NormalizeChain(s)[i] == Normalize(s)[i] {
      NormalizeAt(s, i);
      NormalizeChainAt(s, i);
      ChainCharIsFold(s[i]);
    }
  }

  /** A word of a yeh and a kaf normalises to its Persian spelling whichever
      forms it is written with: all Arabic, all Persian, or mixed. */
  lemma VariantSpellingsAgree()
    ensures Normalize([ArabicYeh, ArabicKaf]) == [FarsiYeh, Keheh]
    ensures Normalize([FarsiYeh, Keheh]) == [FarsiYeh, Keheh]
    ensures Normalize([FarsiYeh, ArabicKaf]) == Normalize([ArabicYeh, Keheh]) == [FarsiYeh, Keheh]
  {
  }
}
