/** The texts of base 64 on the alphabets themselves (tables 1 and 2 of RFC 4648): the value of each character, and
    exactly which texts are well spelled. */
module Base64Form {
  import opened Common
  import opened AccessResource
  import opened PercentForm
  import opened Base64

  /** The characters 62 and 63. */
  function LastTwo(url: bool): string {
    if url then "-_" else "+/"
  }

  /** The character of a value, in either alphabet. */
  predicate IsLetter(c: char, v: nat, url: bool) {
    || (v < 26 && CAPITALS[v] == c)
    || (26 <= v < 52 && SMALLS[v - 26] == c)
    || (52 <= v < 62 && DIGITS[v - 52] == c)
    || (62 <= v < 64 && LastTwo(url)[v - 62] == c)
  }

  lemma CapitalAt(v: nat)
    requires v < 26
    ensures CAPITALS[v] as int == 'A' as int + v
  {
  }

  lemma SmallAt(v: nat)
    requires v < 26
    ensures SMALLS[v] as int == 'a' as int + v
  {
  }

  lemma DigitAt(v: nat)
    requires v < 10
    ensures DIGITS[v] as int == '0' as int + v
  {
  }

  lemma LetterAt(c: char, v: nat, url: bool)
    ensures IsLetter(c, v, url) <==>
              || (v < 26 && c as int == 'A' as int + v)
              || (26 <= v < 52 && c as int == 'a' as int + v - 26)
              || (52 <= v < 62 && c as int == '0' as int + v - 52)
              || (v == 62 && c == (if url then '-' else '+'))
              || (v == 63 && c == (if url then '_' else '/'))
  {
    hide CAPITALS, SMALLS, DIGITS;
    if v < 26 {
      CapitalAt(v);
    } else if v < 52 {
      SmallAt(v - 26);
    } else if v < 62 {
      DigitAt(v - 52);
    }
  }

  /** The value of a character is its place in the alphabet. */
  lemma CharValueMeaning(c: char, url: bool)
    ensures forall v: nat :: IsLetter(c, v, url) <==> CharValue(c, url) == v
  {
    hide IsLetter;
    forall v: nat ensures IsLetter(c, v, url) <==> CharValue(c, url) == v {
      LetterAt(c, v, url);
    }
  }

  predicate Letters(text: string, url: bool) {
    forall c | c in text :: HasValue(c, url)
  }

  predicate HasValue(c: char, url: bool) {
    exists v: nat | v < 64 :: IsLetter(c, v, url)
  }

  /** Letters, and in the standard form as many padding characters as fill the last four. */
  predicate Spelling(text: string, url: bool, body: string, padding: string) {
    && text == body + padding && Letters(body, url) && |body| % 4 != 1
    && (if url then padding == "" else |text| % 4 == 0 && (padding == "" || padding == "=" || padding == "=="))
  }

  lemma PaddingIsNoLetter(url: bool)
    ensures CharValue('=', url) == -1
  {
  }

  lemma LettersHaveValues(text: string, url: bool)
    ensures Letters(text, url) <==> forall i | 0 <= i < |text| :: CharValue(text[i], url) >= 0
  {
    hide CharValue, IsLetter;
    forall i | 0 <= i < |text| ensures HasValue(text[i], url) <==> CharValue(text[i], url) >= 0 {
      CharValueMeaning(text[i], url);
      assert CharValue(text[i], url) >= 0 ==> IsLetter(text[i], CharValue(text[i], url), url);
    }
    if Letters(text, url) {
      forall i | 0 <= i < |text| ensures HasValue(text[i], url) {
        assert text[i] in text;
      }
    }
  }

  /** What the body leaves out at the end is padding. */
  lemma PaddingOf(text: string)
    ensures Body(text, true) == text && Body(text, false) <= text
    ensures var padding := text[|Body(text, false)|..]; padding == "" || padding == "=" || padding == "=="
  {
    var n := |text|;
    if n == 0 || text[n - 1] != '=' {
      assert text[n..] == "";
    } else if n == 1 || text[n - 2] != '=' {
      assert text[n - 1..] == [text[n - 1]];
    } else {
      assert text[n - 2..] == [text[n - 2], text[n - 1]];
    }
  }

  /** A text is well spelled exactly when it has a spelling, and its body is the text without the padding. */
  lemma WellSpelledMeaning(text: string, url: bool)
    ensures WellSpelled(text, url) <==> exists body, padding :: Spelling(text, url, body, padding)
    ensures forall body, padding :: Spelling(text, url, body, padding) ==> Body(text, url) == body
  {
    hide CharValue, Letters;
    PaddingIsNoLetter(url);
    LettersHaveValues(Body(text, url), url);
    if WellSpelled(text, url) {
      var body := Body(text, url);
      PaddingOf(text);
      assert Spelling(text, url, body, text[|body|..]);
    }
    forall body, padding | Spelling(text, url, body, padding) ensures Body(text, url) == body {
      LettersHaveValues(body, url);
      if body != [] {
        assert CharValue(body[|body| - 1], url) >= 0;
      }
    }
  }
}
