/** Canonical surname keys (create_listone.py): `normalize_name`, which the
    target list goes through, and `extract_last_name`, the roster's simpler
    "last token is the surname" rule. */
module NameKeys {
  import opened PyStr

  /** The one exception these functions raise: indexing `[-1]` of an empty
      token list. */
  datatype Error = IndexError

  datatype Result<T> = Ok(value: T) | Err(error: Error)

  predicate IsAsciiLetter(c: char) {
    'a' <= c <= 'z' || 'A' <= c <= 'Z'
  }

  predicate IsAscii(s: string) {
    forall i :: 0 <= i < |s| ==> s[i] < '\U{80}'
  }

  /** Letters of Latin Extended-A (U+0100 to U+017F) that come in
      upper/lower pairs: the pair's base letter, upper-case for the upper
      member. */
  function CasePair(c: char, upperIsEven: bool, upper: string, lower: string): string {
    if (c as int % 2 == 0) == upperIsEven then upper else lower
  }

  /** What `unidecode` makes of one Latin Extended-A character. */
  function LatinExtendedA(c: char): string
    requires '\U{100}' <= c <= '\U{17F}'
  {
    if c <= '\U{105}' then CasePair(c, true, "A", "a")
    else if c <= '\U{10D}' then CasePair(c, true, "C", "c")
    else if c <= '\U{111}' then CasePair(c, true, "D", "d")
    else if c <= '\U{11B}' then CasePair(c, true, "E", "e")
    else if c <= '\U{123}' then CasePair(c, true, "G", "g")
    else if c <= '\U{127}' then CasePair(c, true, "H", "h")
    else if c <= '\U{131}' then CasePair(c, true, "I", "i")
    else if c <= '\U{133}' then CasePair(c, true, "IJ", "ij")
    else if c <= '\U{135}' then CasePair(c, true, "J", "j")
    else if c <= '\U{137}' then CasePair(c, true, "K", "k")
    else if c == '\U{138}' then "q"
    else if c <= '\U{142}' then CasePair(c, false, "L", "l")
    else if c <= '\U{148}' then CasePair(c, false, "N", "n")
    else if c == '\U{149}' then "'n"
    else if c <= '\U{14B}' then CasePair(c, true, "NG", "ng")
    else if c <= '\U{151}' then CasePair(c, true, "O", "o")
    else if c <= '\U{153}' then CasePair(c, true, "OE", "oe")
    else if c <= '\U{159}' then CasePair(c, true, "R", "r")
    else if c <= '\U{161}' then CasePair(c, true, "S", "s")
    else if c <= '\U{167}' then CasePair(c, true, "T", "t")
    else if c <= '\U{173}' then CasePair(c, true, "U", "u")
    else if c <= '\U{175}' then CasePair(c, true, "W", "w")
    else if c <= '\U{177}' then CasePair(c, true, "Y", "y")
    else if c == '\U{178}' then "Y"
    else if c <= '\U{17E}' then CasePair(c, false, "Z", "z")
    else "s"
  }

  /** What `unidecode` makes of one character: ASCII is kept, other
      whitespace becomes a space, Latin-1 and Latin Extended-A letters lose
      their accents, and anything else is dropped. */
  function Transliterate(c: char): string {
    if c < '\U{80}' then [c]
    else if IsSpace(c) then " "
    else if '\U{C0}' <= c <= '\U{C5}' then "A"
    else if c == '\U{C6}' then "AE"
    else if c == '\U{C7}' then "C"
    else if '\U{C8}' <= c <= '\U{CB}' then "E"
    else if '\U{CC}' <= c <= '\U{CF}' then "I"
    else if c == '\U{D0}' then "D"
    else if c == '\U{D1}' then "N"
    else if '\U{D2}' <= c <= '\U{D6}' || c == '\U{D8}' then "O"
    else if c == '\U{D7}' then "x"
    else if '\U{D9}' <= c <= '\U{DC}' then "U"
    else if c == '\U{DD}' then "Y"
    else if c == '\U{DE}' then "Th"
    else if c == '\U{DF}' then "ss"
    else if '\U{E0}' <= c <= '\U{E5}' then "a"
    else if c == '\U{E6}' then "ae"
    else if c == '\U{E7}' then "c"
    else if '\U{E8}' <= c <= '\U{EB}' then "e"
    else if '\U{EC}' <= c <= '\U{EF}' then "i"
    else if c == '\U{F0}' then "d"
    else if c == '\U{F1}' then "n"
    else if '\U{F2}' <= c <= '\U{F6}' || c == '\U{F8}' then "o"
    else if c == '\U{F7}' then "/"
    else if '\U{F9}' <= c <= '\U{FC}' then "u"
    else if c == '\U{FD}' || c == '\U{FF}' then "y"
    else if c == '\U{FE}' then "th"
    else if '\U{100}' <= c <= '\U{17F}' then LatinExtendedA(c)
    else ""
  }

  /** Transliteration turns a non-space character into non-space text. */
  lemma TransliterateNoSpace(c: char)
    requires !IsSpace(c)
    ensures NoSpace(Transliterate(c))
  {
    if c >= '\U{80}' {
      var t := Transliterate(c);
      assert forall i :: 0 <= i < |t| ==> '!' <= t[i] <= '~' by {
        TransliteratePrintable(c);
      }
      forall i | 0 <= i < |t| ensures !IsSpace(t[i]) {
        assert '!' <= t[i] <= '~';
      }
    }
  }

  /** Beyond ASCII, transliteration yields visible ASCII characters only. */
  lemma TransliteratePrintable(c: char)
    requires c >= '\U{80}' && !IsSpace(c)
    ensures forall i :: 0 <= i < |Transliterate(c)| ==> '!' <= Transliterate(c)[i] <= '~'
  {
    if '\U{100}' <= c <= '\U{17F}' {
      assert Transliterate(c) == LatinExtendedA(c);
      LatinExtendedAPrintable(c);
    }
  }

  lemma LatinExtendedAPrintable(c: char)
    requires '\U{100}' <= c <= '\U{17F}'
    ensures forall i :: 0 <= i < |LatinExtendedA(c)| ==> '!' <= LatinExtendedA(c)[i] <= '~'
  {
  }

  /** `unidecode.unidecode(s)` (line 18), character by character. */
  function Unidecode(s: string): (r: string)
    ensures IsAscii(s) ==> r == s
    ensures NoSpace(s) ==> NoSpace(r)
  {
    if s == [] then []
    else
      (if !IsSpace(s[0]) then TransliterateNoSpace(s[0]); Transliterate(s[0]) else Transliterate(s[0]))
      + Unidecode(s[1..])
  }

  /** `re.sub(r'[^a-zA-Z\s]', '', s)` (line 36): keep ASCII letters and
      whitespace, drop everything else. */
  function RemoveNonAlpha(s: string): (r: string)
    ensures forall i :: 0 <= i < |r| ==> IsAsciiLetter(r[i]) || IsSpace(r[i])
    ensures NoSpace(s) ==> NoSpace(r)
  {
    if s == [] then []
    else (if IsAsciiLetter(s[0]) || IsSpace(s[0]) then [s[0]] else []) + RemoveNonAlpha(s[1..])
  }

  /** The ASCII letters of `s`, in order. */
  function AsciiLetters(s: string): string {
    if s == [] then []
    else (if IsAsciiLetter(s[0]) then [s[0]] else []) + AsciiLetters(s[1..])
  }

  predicate EndsWithDot(s: string) {
    |s| > 0 && s[|s| - 1] == '.'
  }

  /** `unidecode(name).strip().split()` (lines 18-21). */
  function Segments(name: string): seq<string> {
    Split(Strip(Unidecode(name)))
  }

  /** Lines 36-38: drop non-letters, strip, lower-case. */
  function Clean(relevant: string): string {
    Lower(Strip(RemoveNonAlpha(relevant)))
  }

  /** `normalize_name(name)` (lines 16-38). */
  function NormalizeName(name: string): Result<string> {
    var segments := Segments(name);
    if |segments| > 0 && EndsWithDot(segments[|segments| - 1]) then
      if |segments| > 1 then
        Ok(Clean(segments[|segments| - 2] + " " + segments[|segments| - 1]))
      else
        Ok(Clean(segments[|segments| - 1]))
    else if |segments| == 0 then
      Err(IndexError)
    else
      Ok(Clean(segments[|segments| - 1]))
  }

  /** `extract_last_name(full_name)` (lines 41-44). */
  function ExtractLastName(fullName: string): Result<string> {
    var parts := Split(fullName);
    if |parts| == 0 then Err(IndexError) else Ok(parts[|parts| - 1])
  }

  /** A canonical key: lower-case ASCII letters and spaces, with no space at
      either end. */
  predicate IsKey(k: string) {
    (forall i :: 0 <= i < |k| ==> 'a' <= k[i] <= 'z' || k[i] == ' ')
    && (k == [] || (k[0] != ' ' && k[|k| - 1] != ' '))
  }

  /** `w` is the last whitespace-delimited token of `s`: it sits at the start
      of `s` or right after whitespace, and only whitespace follows it. */
  predicate IsLastToken(s: string, w: string) {
    exists k :: 0 <= k <= |s| - |w| && LastTokenAt(s, w, k)
  }

  predicate LastTokenAt(s: string, w: string, k: nat)
    requires k + |w| <= |s|
  {
    s[k..k + |w|] == w && (k == 0 || IsSpace(s[k - 1])) && Blank(s[k + |w|..])
  }

  predicate LettersOrSpaces(s: string) {
    forall i :: 0 <= i < |s| ==> IsAsciiLetter(s[i]) || s[i] == ' '
  }

  // ---------------------------------------------------------------------
  // Properties of normalize_name and extract_last_name.

  /** The branches of `normalize_name`, with the token list named. */
  lemma NormalizeNameCases(name: string, seg: seq<string>)
    requires seg == Segments(name)
    ensures NormalizeName(name) ==
      if seg == [] then Err(IndexError)
      else if |seg| > 1 && EndsWithDot(seg[|seg| - 1]) then Ok(Clean(seg[|seg| - 2] + " " + seg[|seg| - 1]))
      else Ok(Clean(seg[|seg| - 1]))
  {
    if seg == [] {
    } else if |seg| > 1 && EndsWithDot(seg[|seg| - 1]) {
    } else {
    }
  }

  lemma {:induction false} RemoveNonAlphaConcat(a: string, b: string)
    ensures RemoveNonAlpha(a + b) == RemoveNonAlpha(a) + RemoveNonAlpha(b)
    decreases |a|
  {
    if a == [] {
      assert a + b == b;
    } else {
      var c, t := a[0], a[1..];
      assert a == [c] + t && a + b == [c] + (t + b);
      var h := if IsAsciiLetter(c) || IsSpace(c) then [c] else [];
      var x, y := RemoveNonAlpha(t), RemoveNonAlpha(b);
      assert RemoveNonAlpha(t + b) == x + y by {
        RemoveNonAlphaConcat(t, b);
      }
      assert RemoveNonAlpha(a + b) == h + (x + y) by {
        RemoveNonAlphaCons(c, t + b);
      }
      assert RemoveNonAlpha(a) == h + x by {
        RemoveNonAlphaCons(c, t);
      }
      assert h + (x + y) == (h + x) + y;
    }
  }

  lemma RemoveNonAlphaCons(c: char, t: string)
    ensures RemoveNonAlpha([c] + t) == (if IsAsciiLetter(c) || IsSpace(c) then [c] else []) + RemoveNonAlpha(t)
  {
    assert ([c] + t)[0] == c && ([c] + t)[1..] == t;
  }

  /** Text made only of ASCII letters and whitespace passes the substitution
      unchanged. */
  lemma {:induction false} RemoveNonAlphaKeepsAll(s: string)
    requires forall i :: 0 <= i < |s| ==> IsAsciiLetter(s[i]) || IsSpace(s[i])
    ensures RemoveNonAlpha(s) == s
    decreases |s|
  {
    if s != [] {
      var t := s[1..];
      assert forall i :: 0 <= i < |t| ==> t[i] == s[i + 1];
      RemoveNonAlphaKeepsAll(t);
      RemoveNonAlphaCons(s[0], t);
      ConsTail(s);
    }
  }

  /** Any other character is deleted. */
  lemma RemoveNonAlphaDrops(c: char)
    requires !IsAsciiLetter(c) && !IsSpace(c)
    ensures RemoveNonAlpha([c]) == []
  {
    RemoveNonAlphaCons(c, []);
    assert [c] + [] == [c];
  }

  /** On a single token the regex substitution keeps exactly the letters. */
  lemma {:induction false} RemoveNonAlphaToken(s: string)
    requires NoSpace(s)
    ensures RemoveNonAlpha(s) == AsciiLetters(s)
    decreases |s|
  {
    if s != [] {
      assert !IsSpace(s[0]);
      RemoveNonAlphaToken(s[1..]);
    }
  }

  lemma StripLettersOrSpaces(z: string)
    requires LettersOrSpaces(z)
    ensures LettersOrSpaces(Strip(z))
  {
    var t := TrimRight(z);
    assert LettersOrSpaces(t);
  }

  lemma LowerCharKey(c: char)
    ensures IsAsciiLetter(c) ==> 'a' <= LowerChar(c) <= 'z'
    ensures c == ' ' ==> LowerChar(c) == ' '
    ensures 'a' <= c <= 'z' ==> LowerChar(c) == c
  {
  }

  /** Lower-casing letters and spaces keeps them letters and spaces, now
      lower-case, and keeps a space where there was one. */
  lemma LowerKey(z: string)
    requires LettersOrSpaces(z)
    ensures |Lower(z)| == |z|
    ensures forall i :: 0 <= i < |z| ==> ('a' <= Lower(z)[i] <= 'z' || Lower(z)[i] == ' ')
    ensures forall i :: 0 <= i < |z| ==> (Lower(z)[i] == ' ' <==> z[i] == ' ')
  {
    forall i | 0 <= i < |z|
      ensures ('a' <= Lower(z)[i] <= 'z' || Lower(z)[i] == ' ') && (Lower(z)[i] == ' ' <==> z[i] == ' ')
    {
      LowerCharKey(z[i]);
    }
  }

  /** Cleaning text made of letters and spaces yields a key. */
  lemma CleanIsKey(z: string)
    requires LettersOrSpaces(z)
    ensures IsKey(Lower(Strip(z)))
  {
    var w := Strip(z);
    assert LettersOrSpaces(w) by {
      StripLettersOrSpaces(z);
    }
    assert w != [] ==> w[0] != ' ' && w[|w| - 1] != ' ' by {
      StripShape(z);
      assert IsSpace(' ');
    }
    LowerTrimmedIsKey(w);
  }

  lemma LowerTrimmedIsKey(w: string)
    requires LettersOrSpaces(w)
    requires w != [] ==> w[0] != ' ' && w[|w| - 1] != ' '
    ensures IsKey(Lower(w))
  {
    LowerKey(w);
  }

  /** The text a single-token segment is cleaned from has no whitespace, so
      cleaning keeps its letters only. */
  lemma CleanToken(t: string)
    requires NoSpace(t)
    ensures Clean(t) == Lower(AsciiLetters(t)) && NoSpace(Clean(t))
  {
    var r := RemoveNonAlpha(t);
    RemoveNonAlphaToken(t);
    StripNoSpace(r);
    assert LettersOrSpaces(r) by {
      forall i | 0 <= i < |r| ensures IsAsciiLetter(r[i]) || r[i] == ' ' {
        assert !IsSpace(r[i]);
      }
    }
    LowerKey(r);
    var l := Lower(r);
    forall i | 0 <= i < |l| ensures !IsSpace(l[i]) {
      assert r[i] != ' ' by { assert !IsSpace(r[i]); }
      assert 'a' <= l[i] <= 'z';
    }
  }

  /** Two words joined by one space, or whichever of them is not empty. */
  function JoinWords(x: string, y: string): string {
    if x == [] then y else if y == [] then x else x + " " + y
  }

  /** Stripping two space-free parts joined by one space. */
  lemma StripJoin(x: string, y: string)
    requires NoSpace(x) && NoSpace(y)
    ensures Strip(x + " " + y) == JoinWords(x, y)
  {
    var z := x + " " + y;
    if y == [] {
      assert TrimRight(z) == TrimRight(x) by {
        assert z[..|z| - 1] == x;
      }
      assert Strip(x) == x by {
        StripNoSpace(x);
      }
    } else {
      assert TrimRight(z) == z by {
        assert z[|z| - 1] == y[|y| - 1];
        assert !IsSpace(y[|y| - 1]);
      }
      if x == [] {
        assert TrimLeft(z) == y by {
          assert z == [' '] + y && z[1..] == y;
          assert !IsSpace(y[0]);
        }
      } else {
        assert TrimLeft(z) == z by {
          assert z[0] == x[0] && !IsSpace(x[0]);
        }
      }
    }
  }

  /** Two letter-only parts joined by a space are letters and spaces. */
  lemma JoinLettersOrSpaces(x: string, y: string)
    requires forall i :: 0 <= i < |x| ==> IsAsciiLetter(x[i])
    requires forall i :: 0 <= i < |y| ==> IsAsciiLetter(y[i])
    ensures LettersOrSpaces(x + " " + y)
  {
    var z := x + " " + y;
    forall i | 0 <= i < |z| ensures IsAsciiLetter(z[i]) || z[i] == ' ' {
      if i < |x| {
        assert z[i] == x[i];
      } else if i > |x| {
        assert z[i] == y[i - |x| - 1];
      }
    }
  }

  /** `normalize_name` fails exactly on names that transliterate to
      whitespace only, and otherwise returns a key: lower-case ASCII letters
      and spaces with no space at either end (lines 21, 24, 33, 36-38). */
  lemma NormalizeNameShape(name: string)
    ensures NormalizeName(name).Err? <==> Blank(Unidecode(name))
    ensures NormalizeName(name).Ok? ==> IsKey(NormalizeName(name).value)
  {
    var u := Unidecode(name);
    var seg := Segments(name);
    NormalizeNameCases(name, seg);
    StripShape(u);
    assert seg == [] <==> Blank(Strip(u));
    if seg != [] {
      var b := seg[|seg| - 1];
      if |seg| > 1 && EndsWithDot(b) {
        JoinedIsKey(seg[|seg| - 2], b);
      } else {
        TokenIsKey(b);
      }
    }
  }

  /** Cleaning one token yields a key. */
  lemma TokenIsKey(b: string)
    requires NoSpace(b)
    ensures IsKey(Clean(b))
  {
    var y := RemoveNonAlpha(b);
    assert LettersOrSpaces(y) by {
      forall i | 0 <= i < |y| ensures IsAsciiLetter(y[i]) || y[i] == ' ' {
        assert !IsSpace(y[i]);
      }
    }
    CleanIsKey(y);
  }

  /** Cleaning two tokens joined by a space yields a key. */
  lemma JoinedIsKey(a: string, b: string)
    requires NoSpace(a) && NoSpace(b)
    ensures IsKey(Clean(a + " " + b))
  {
    var x, y := RemoveNonAlpha(a), RemoveNonAlpha(b);
    RemoveNonAlphaJoin(a, b);
    RemoveNonAlphaToken(a);
    RemoveNonAlphaToken(b);
    LettersOnly(a);
    LettersOnly(b);
    JoinLettersOrSpaces(x, y);
    CleanIsKey(x + " " + y);
  }

  lemma {:induction false} LettersOnly(s: string)
    ensures forall i :: 0 <= i < |AsciiLetters(s)| ==> IsAsciiLetter(AsciiLetters(s)[i])
    decreases |s|
  {
    if s != [] {
      LettersOnly(s[1..]);
    }
  }

  lemma RemoveNonAlphaJoin(a: string, b: string)
    ensures RemoveNonAlpha(a + " " + b) == RemoveNonAlpha(a) + " " + RemoveNonAlpha(b)
  {
    RemoveNonAlphaConcat(a + " ", b);
    RemoveNonAlphaConcat(a, " ");
    assert RemoveNonAlpha(" ") == " " by {
      assert IsSpace(' ');
      assert " "[1..] == [];
    }
  }

  /** When the last segment does not end in '.', or is the only segment,
      the key is the lower-cased letters of the last segment alone, with no
      space (lines 24-33, 36-38). */
  lemma NormalizeNameSurname(name: string)
    requires var seg := Segments(name);
      seg != [] && (|seg| == 1 || !EndsWithDot(seg[|seg| - 1]))
    ensures var seg := Segments(name);
      NormalizeName(name) == Ok(Lower(AsciiLetters(seg[|seg| - 1])))
      && ' ' !in NormalizeName(name).value
  {
    var seg := Segments(name);
    NormalizeNameCases(name, seg);
    var b := seg[|seg| - 1];
    CleanToken(b);
    assert IsSpace(' ');
  }

  /** When the last segment ends in '.' and another precedes it (a name
      such as "Martinez L."), the key is the letters of the two segments,
      lower-cased and joined by one space; the space goes when either side
      has no letters (lines 24-27, 36-38). */
  lemma NormalizeNameAbbreviated(name: string, seg: seq<string>)
    requires seg == Segments(name)
    requires |seg| >= 2 && EndsWithDot(seg[|seg| - 1])
    ensures NormalizeName(name) ==
      Ok(Lower(JoinWords(AsciiLetters(seg[|seg| - 2]), AsciiLetters(seg[|seg| - 1]))))
  {
    var a, b := seg[|seg| - 2], seg[|seg| - 1];
    var c := Clean(a + " " + b);
    assert NormalizeName(name) == Ok(c) by {
      NormalizeNameCases(name, seg);
    }
    assert c == Lower(JoinWords(AsciiLetters(a), AsciiLetters(b))) by {
      CleanJoin(a, b);
    }
  }

  /** Cleaning two tokens joined by a space. */
  lemma CleanJoin(a: string, b: string)
    requires NoSpace(a) && NoSpace(b)
    ensures var x, y := AsciiLetters(a), AsciiLetters(b);
      Clean(a + " " + b) == Lower(JoinWords(x, y))
  {
    var x, y := AsciiLetters(a), AsciiLetters(b);
    RemoveNonAlphaJoin(a, b);
    RemoveNonAlphaToken(a);
    RemoveNonAlphaToken(b);
    LettersOnly(a);
    LettersOnly(b);
    LettersNoSpace(x);
    LettersNoSpace(y);
    StripJoin(x, y);
  }

  lemma LettersNoSpace(x: string)
    requires forall i :: 0 <= i < |x| ==> IsAsciiLetter(x[i])
    ensures NoSpace(x)
  {
    forall i | 0 <= i < |x| ensures !IsSpace(x[i]) {
      assert IsAsciiLetter(x[i]);
    }
  }

  /** `extract_last_name` fails exactly on blank names, and otherwise
      returns the last whitespace-delimited token (lines 41-44). */
  lemma ExtractLastNameIsLastToken(fullName: string)
    ensures ExtractLastName(fullName).Err? <==> Blank(fullName)
    ensures ExtractLastName(fullName).Ok? ==>
      var w := ExtractLastName(fullName).value;
      w != [] && NoSpace(w) && IsLastToken(fullName, w)
  {
    var t := TrimRight(fullName);
    if t != [] {
      var k := WordStart(t);
      var w := t[k..];
      assert ExtractLastName(fullName) == Ok(w) by {
        SplitBy(fullName, t, k);
      }
      assert k + |w| <= |fullName| && LastTokenAt(fullName, w, k) by {
        LastWordAt(fullName, t, k);
      }
    }
  }

  /** A word ending a prefix of `s` followed by whitespace only is the last
      token of `s`. */
  lemma LastWordAt(s: string, t: string, k: nat)
    requires |t| <= |s| && t == s[..|t|] && Blank(s[|t|..])
    requires k <= |t| && (k == 0 || IsSpace(t[k - 1]))
    ensures k + |t[k..]| <= |s| && LastTokenAt(s, t[k..], k)
  {
    var w := t[k..];
    assert s[k..k + |w|] == w;
    assert k == 0 || s[k - 1] == t[k - 1];
    assert s[k + |w|..] == s[|t|..];
  }

  /** A roster surname token always normalizes to a key without a space:
      `normalize_name(extract_last_name(p))` is one word or fails. */
  lemma SurnameKeyHasNoSpace(t: string)
    requires NoSpace(t)
    ensures NormalizeName(t).Ok? ==> ' ' !in NormalizeName(t).value
  {
    var u := Unidecode(t);
    if u != [] {
      StripNoSpace(u);
      SplitToken(u);
      NormalizeNameSurname(t);
    }
  }

  /** Normalizing a one-word key gives the key back. */
  lemma NormalizeNameFixesWords(k: string)
    requires k != [] && forall i :: 0 <= i < |k| ==> 'a' <= k[i] <= 'z'
    ensures NormalizeName(k) == Ok(k)
  {
    assert Segments(k) == [k] by {
      assert NoSpace(k) by {
        forall i | 0 <= i < |k| ensures !IsSpace(k[i]) {
          assert 'a' <= k[i] <= 'z';
        }
      }
      WordSegments(k);
    }
    OneSegment(k, k);
    assert Lower(AsciiLetters(k)) == k by {
      LettersOfLetters(k);
    }
  }

  /** A single word of ASCII letters keys to itself, lower-cased. */
  lemma NormalizeNameOfWord(w: string)
    requires w != [] && forall i :: 0 <= i < |w| ==> IsAsciiLetter(w[i])
    ensures NormalizeName(w) == Ok(Lower(w))
  {
    assert Segments(w) == [w] by {
      LettersNoSpace(w);
      WordSegments(w);
    }
    OneSegment(w, w);
    assert AsciiLetters(w) == w by {
      AsciiLettersOfLetters(w);
    }
  }

  /** An ASCII word without whitespace is its own only segment. */
  lemma WordSegments(w: string)
    requires w != [] && NoSpace(w)
    requires forall i :: 0 <= i < |w| ==> 'a' <= w[i] <= 'z' || 'A' <= w[i] <= 'Z'
    ensures Segments(w) == [w]
  {
    assert IsAscii(w) by {
      forall i | 0 <= i < |w| ensures w[i] < '\U{80}' {
        assert 'a' <= w[i] <= 'z' || 'A' <= w[i] <= 'Z';
      }
    }
    StripNoSpace(w);
    SplitToken(w);
  }

  /** A name with a single segment keys to that segment's letters. */
  lemma OneSegment(name: string, w: string)
    requires Segments(name) == [w]
    ensures NormalizeName(name) == Ok(Lower(AsciiLetters(w)))
  {
    NormalizeNameSurname(name);
  }

  lemma {:induction false} AsciiLettersOfLetters(w: string)
    requires forall i :: 0 <= i < |w| ==> IsAsciiLetter(w[i])
    ensures AsciiLetters(w) == w
    decreases |w|
  {
    if w != [] {
      AsciiLettersOfLetters(w[1..]);
      assert IsAsciiLetter(w[0]);
    }
  }

  /** A one-segment name with no ASCII letter, such as "123" or "-", is not
      an error: its key is the empty string. */
  lemma NormalizeNameNoLetters(name: string, w: string)
    requires Segments(name) == [w]
    requires forall i :: 0 <= i < |w| ==> !IsAsciiLetter(w[i])
    ensures NormalizeName(name) == Ok("")
  {
    OneSegment(name, w);
    assert Lower(AsciiLetters(w)) == "" by {
      NoAsciiLetters(w);
    }
  }

  lemma {:induction false} NoAsciiLetters(w: string)
    requires forall i :: 0 <= i < |w| ==> !IsAsciiLetter(w[i])
    ensures AsciiLetters(w) == []
    decreases |w|
  {
    if w != [] {
      assert forall i :: 0 <= i < |w[1..]| ==> w[1..][i] == w[i + 1];
      NoAsciiLetters(w[1..]);
    }
  }

  lemma {:induction false} LettersOfLetters(k: string)
    requires forall i :: 0 <= i < |k| ==> 'a' <= k[i] <= 'z'
    ensures Lower(AsciiLetters(k)) == k
    decreases |k|
  {
    if k != [] {
      LettersOfLetters(k[1..]);
      assert AsciiLetters(k) == [k[0]] + AsciiLetters(k[1..]);
    }
  }
}
