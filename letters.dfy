/** The letter archive page (main/views.py, letter_view): the letter from
    the URL is lowercased and must occur in the alphabet string; its
    position picks the page's template, `main/letter_<n>.html`. The test
    is Python's substring test, so a run of consecutive letters such as
    "ab" or "xyz" is accepted too, with the position of its first letter. */
module Letters {
  import opened Wrappers
  import opened Text

  /** LETTERS */
  const Alphabet := "abcdefghijklmnopqrstuvwxyz"

  datatype NotFound = InvalidLetter | TemplateMissing

  /** What the page is rendered with: the template, its number, the letter
      the articles are filtered by, the letter as displayed, and the
      heading. */
  datatype LetterPage = LetterPage(template: string, index: nat, letter: string, shown: string, heading: string)

  /** `f"main/letter_{index}.html"`: the number written between the
      prefix and the extension reads back as `index`, so different pages
      have different templates. */
  function TemplateName(index: nat): (r: string)
    ensures |r| >= 18 && r[..12] == "main/letter_" && r[|r| - 5..] == ".html"
    ensures AllDigits(r[12..|r| - 5]) && ParseDecimal(r[12..|r| - 5]) == index
  {
    var r := "main/letter_" + DecimalString(index) + ".html";
    assert r[12..|r| - 5] == DecimalString(index);
    r
  }

  const HeadingPrefix := "Travel destinations starting with “"

  /** The page heading: "Abu Dhabi" for the letter a, otherwise
      "Travel destinations starting with “<LETTER>”". */
  function Heading(letter: string): (r: string)
    ensures r == "Abu Dhabi" <==> letter == "a"
    ensures letter != "a" ==> |r| == |HeadingPrefix| + |letter| + 1 && r[..|HeadingPrefix|] == HeadingPrefix
    ensures letter != "a" ==> r[|HeadingPrefix|..|r| - 1] == Upper(letter) && r[|r| - 1] == '”'
  {
    if letter == "a" then "Abu Dhabi"
    else
      var r := HeadingPrefix + Upper(letter) + "”";
      assert r[0] != 'A';
      assert r[|HeadingPrefix|..|r| - 1] == Upper(letter);
      r
  }

  /** letter_view. `templates` are the template names the loader can find.
      The page opens exactly when the lowercased letter occurs in the
      alphabet and the template numbered after its first occurrence can be
      loaded; otherwise the 404 says which of the two failed. */
  function LetterView(letter: string, templates: set<string>): (r: Result<LetterPage, NotFound>)
    ensures r.Ok? <==> Contains(Alphabet, Lower(letter)) && TemplateName(Find(Alphabet, Lower(letter)).value + 1) in templates
    ensures r.Err? && r.error == InvalidLetter <==> !Contains(Alphabet, Lower(letter))
    ensures r.Ok? ==> r.value.template in templates
    ensures r.Ok? ==> r.value.shown == Upper(Lower(letter)) && r.value.heading == Heading(Lower(letter))
    ensures r.Ok? ==> r.value.letter == Lower(letter) && r.value.template == TemplateName(r.value.index)
    ensures r.Ok? ==> 1 <= r.value.index <= |Alphabet|
    ensures r.Ok? ==> OccursAt(Alphabet, r.value.letter, r.value.index - 1)
    ensures r.Ok? ==> forall j: nat :: j < r.value.index - 1 ==> !OccursAt(Alphabet, r.value.letter, j)
  {
    var letter := Lower(letter);
    if !Contains(Alphabet, letter) then Err(InvalidLetter)
    else
      var index := Find(Alphabet, letter).value + 1;
      var template := TemplateName(index);
      if template !in templates then Err(TemplateMissing)
      else Ok(LetterPage(template, index, letter, Upper(letter), Heading(letter)))
  }

  // ---------------------------------------------------------------------
  // Which letters are accepted
  // ---------------------------------------------------------------------

  lemma AlphabetAt()
    ensures |Alphabet| == 26
    ensures forall k :: 0 <= k < 26 ==> Alphabet[k] as int == 'a' as int + k
  {
  }

  /** Wherever a non-empty string occurs in the alphabet, it occurs at the
      position of its first letter. */
  lemma OccurrenceInAlphabet(needle: string, p: nat)
    requires needle != [] && OccursAt(Alphabet, needle, p)
    ensures p == needle[0] as int - 'a' as int
  {
    AlphabetAt();
    assert Alphabet[p] == Alphabet[p..p + |needle|][0];
  }

  /** The case of the letter in the URL does not matter. */
  lemma CaseInsensitive(letter: string, templates: set<string>)
    ensures LetterView(letter, templates) == LetterView(Lower(letter), templates)
  {
    LowerIdempotent(letter);
  }

  /** A single ASCII letter, in either case, is accepted, and its page is
      number 1 to 26 in alphabetical order ('a' and 'A' give 1, 'z' and 'Z'
      give 26) unless that template is missing. The Kelvin sign, which
      lowercases to 'k', gets page 11. */
  lemma SingleLetterIndex(c: char, templates: set<string>)
    requires IsAsciiLower(c) || IsAsciiUpper(c) || c == KelvinSign
    ensures 1 <= LowerChar(c) as int - 'a' as int + 1 <= 26
    ensures LetterView([c], templates).Ok? <==>
      TemplateName(LowerChar(c) as int - 'a' as int + 1) in templates
    ensures LetterView([c], templates).Ok? ==>
      LetterView([c], templates).value.index == LowerChar(c) as int - 'a' as int + 1
    ensures LetterView([c], templates).Err? ==> LetterView([c], templates).error == TemplateMissing
  {
    var l := Lower([c]);
    assert l == [LowerChar(c)];
    var p := LowerChar(c) as int - 'a' as int;
    AlphabetAt();
    assert Alphabet[p..p + 1] == l;
    assert OccursAt(Alphabet, l, p);
    OccurrenceInAlphabet(l, Find(Alphabet, l).value);
  }

  /** Any other single character is rejected: together with
      SingleLetterIndex, a one-character letter is accepted exactly when it
      lowercases to an ASCII letter. */
  lemma NonLetterRejected(c: char, templates: set<string>)
    requires !IsAsciiLower(c) && !IsAsciiUpper(c) && c != KelvinSign
    ensures LetterView([c], templates) == Err(InvalidLetter)
  {
    AlphabetAt();
    assert Lower([c]) == [c];
  }

  /** The substring test accepts any run of consecutive letters, such as
      "ab" or "xyz", and gives it the page of its first letter. */
  lemma RunOfLettersAccepted(i: nat, n: nat, templates: set<string>)
    requires 1 <= n && i + n <= 26
    requires TemplateName(i + 1) in templates
    ensures LetterView(Alphabet[i..i + n], templates).Ok?
    ensures LetterView(Alphabet[i..i + n], templates).value.index == i + 1
  {
    AlphabetAt();
    var run := Alphabet[i..i + n];
    assert forall k :: 0 <= k < n ==> run[k] == Alphabet[i + k];
    assert Lower(run) == run;
    assert OccursAt(Alphabet, run, i);
    OccurrenceInAlphabet(run, Find(Alphabet, run).value);
  }

  /** The Kelvin sign opens the page of the letter k. */
  lemma KelvinSignIsK(templates: set<string>)
    ensures LetterView([KelvinSign], templates) == LetterView("k", templates)
  {
    assert Lower([KelvinSign]) == "k";
    assert Lower("k") == "k";
  }

  /** The empty string occurs everywhere, so it is accepted with page 1. */
  lemma EmptyLetterAccepted(templates: set<string>)
    requires TemplateName(1) in templates
    ensures LetterView([], templates).Ok? && LetterView([], templates).value.index == 1
  {
    assert OccursAt(Alphabet, [], 0);
  }

  /** Letters out of alphabetical order, such as "ba", are rejected. */
  lemma OutOfOrderRejected(templates: set<string>)
    ensures LetterView("ba", templates) == Err(InvalidLetter)
  {
    assert Lower("ba") == "ba";
    AlphabetAt();
    forall p: nat | p <= |Alphabet| ensures !OccursAt(Alphabet, "ba", p) {
      if p + 2 > |Alphabet| {
      } else if p == 1 {
        assert Alphabet[p..p + 2][1] == 'c';
      } else {
        assert Alphabet[p..p + 2][0] == Alphabet[p] != 'b';
      }
    }
  }
}
