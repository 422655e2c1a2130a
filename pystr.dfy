/** The parts of Python's `str` that the player-identity code relies on:
    whitespace as `str.isspace` sees it, `split()`, `strip()`, `lower()`,
    `split(sep)`, `sep.join`, the substring test `sub in s`, and `None`. */
module PyStr {

  /** A value or Python's `None`. */
  datatype Option<T> = None | Some(value: T)

  /** `str.isspace` for one character. `split()`, `strip()` and the regular
      expression class `\s` all use this set. */
  predicate IsSpace(c: char) {
    ('\t' <= c <= '\r') || ('\U{1C}' <= c <= '\U{1F}') || c == ' '
    || c == '\U{85}' || c == '\U{A0}' || c == '\U{1680}'
    || ('\U{2000}' <= c <= '\U{200A}') || c == '\U{2028}' || c == '\U{2029}'
    || c == '\U{202F}' || c == '\U{205F}' || c == '\U{3000}'
  }

  /** No character of `s` is whitespace. */
  predicate NoSpace(s: string) {
    forall i :: 0 <= i < |s| ==> !IsSpace(s[i])
  }

  /** Every character of `s` is whitespace (the empty string included). */
  predicate Blank(s: string) {
    forall i :: 0 <= i < |s| ==> IsSpace(s[i])
  }

  /** `s.rstrip()` */
  function TrimRight(s: string): (r: string)
    ensures |r| <= |s| && r == s[..|r|] && Blank(s[|r|..])
    ensures r == [] || !IsSpace(r[|r| - 1])
  {
    if s != [] && IsSpace(s[|s| - 1]) then
      var r := TrimRight(s[..|s| - 1]);
      assert s[..|s| - 1][..|r|] == s[..|r|];
      assert s[|r|..] == s[..|s| - 1][|r|..] + [s[|s| - 1]];
      r
    else s
  }

  /** `s.lstrip()` */
  function TrimLeft(s: string): (r: string)
    ensures |r| <= |s| && r == s[|s| - |r|..] && Blank(s[..|s| - |r|])
    ensures r == [] || !IsSpace(r[0])
  {
    if s != [] && IsSpace(s[0]) then
      var r := TrimLeft(s[1..]);
      assert forall i :: 1 <= i < |s| - |r| ==> s[i] == s[1..][..|s| - 1 - |r|][i - 1];
      r
    else s
  }

  /** `s.strip()` */
  function Strip(s: string): string {
    TrimLeft(TrimRight(s))
  }

  /** Where the last token of `s` starts, for an `s` that is empty or ends in
      a non-space character. */
  function WordStart(s: string): (k: nat)
    ensures k <= |s| && NoSpace(s[k..])
    ensures k == 0 || IsSpace(s[k - 1])
    ensures s != [] && !IsSpace(s[|s| - 1]) ==> k < |s|
  {
    if s == [] || IsSpace(s[|s| - 1]) then |s|
    else
      var p := s[..|s| - 1];
      var k := WordStart(p);
      assert s[k..] == p[k..] + [s[|s| - 1]];
      assert forall i :: 0 <= i < |s| - k ==> s[k..][i] == if i < |p| - k then p[k..][i] else s[|s| - 1];
      k
  }

  /** `s.split()`: the maximal runs of non-whitespace characters, in order. */
  function Split(s: string): (r: seq<string>)
    ensures forall i :: 0 <= i < |r| ==> r[i] != [] && NoSpace(r[i])
    ensures r == [] <==> Blank(s)
    decreases |s|
  {
    var t := TrimRight(s);
    if t == [] then []
    else
      var k := WordStart(t);
      assert s[|t| - 1] == t[|t| - 1];
      Split(t[..k]) + [t[k..]]
  }

  /** `''.join(parts)` */
  function Concat(parts: seq<string>): string {
    if parts == [] then [] else Concat(parts[..|parts| - 1]) + parts[|parts| - 1]
  }

  /** `c.lower()` for the characters whose case this model knows: ASCII,
      Latin-1 Supplement and Latin Extended-A (U+0130 aside). */
  function LowerChar(c: char): char {
    if 'A' <= c <= 'Z' || ('\U{C0}' <= c <= '\U{DE}' && c != '\U{D7}') then
      (c as int + 32) as char
    else if c == '\U{178}' then '\U{FF}'
    else if ('\U{100}' <= c <= '\U{12F}' || '\U{132}' <= c <= '\U{137}' || '\U{14A}' <= c <= '\U{177}')
      && c as int % 2 == 0 then
      (c as int + 1) as char
    else if ('\U{139}' <= c <= '\U{148}' || '\U{179}' <= c <= '\U{17E}') && c as int % 2 == 1 then
      (c as int + 1) as char
    else c
  }

  /** `s.lower()` */
  function Lower(s: string): string {
    seq(|s|, i requires 0 <= i < |s| => LowerChar(s[i]))
  }

  /** `lower()` keeps the length, maps each ASCII capital to the lower-case
      letter at the same place in the alphabet, leaves every other ASCII
      character alone and makes no other character an ASCII letter, so no
      ASCII capital is left. */
  lemma LowerLetters(s: string)
    ensures |Lower(s)| == |s|
    ensures forall i :: 0 <= i < |s| && 'A' <= s[i] <= 'Z' ==>
      Lower(s)[i] as int - 'a' as int == s[i] as int - 'A' as int
    ensures forall i :: 0 <= i < |s| && s[i] < '\U{80}' && !('A' <= s[i] <= 'Z') ==> Lower(s)[i] == s[i]
    ensures forall i :: 0 <= i < |s| ==>
      (('A' <= s[i] <= 'Z' || 'a' <= s[i] <= 'z') <==> 'a' <= Lower(s)[i] <= 'z')
    ensures forall i :: 0 <= i < |s| ==> !('A' <= Lower(s)[i] <= 'Z')
  {
  }

  /** `sub in s` */
  predicate Contains(s: string, sub: string) {
    exists i :: 0 <= i <= |s| - |sub| && OccursAt(s, sub, i)
  }

  /** `sub` occurs in `s` starting at index `i`. */
  predicate OccursAt(s: string, sub: string, i: nat)
    requires i + |sub| <= |s|
  {
    s[i..i + |sub|] == sub
  }

  /** `s.split(sep)` for a one-character separator, with the field read so
      far in `field`. */
  function SplitOnFrom(s: string, sep: char, field: string): (r: seq<string>)
    decreases |s|
  {
    if s == [] then [field]
    else if s[0] == sep then [field] + SplitOnFrom(s[1..], sep, [])
    else SplitOnFrom(s[1..], sep, field + [s[0]])
  }

  /** `s.split(sep)`: every field between separators, empty ones included. */
  function SplitOn(s: string, sep: char): seq<string> {
    SplitOnFrom(s, sep, [])
  }

  /** `sep.join(fields)` for a one-character separator. */
  function JoinOn(fields: seq<string>, sep: char): (r: string)
    requires fields != []
    ensures |r| >= |fields| - 1
    decreases |fields|
  {
    if |fields| == 1 then fields[0] else fields[0] + [sep] + JoinOn(fields[1..], sep)
  }

  // ---------------------------------------------------------------------
  // Facts about these primitives used by the modules above them.

  /** A string with no whitespace is its own strip. */
  lemma StripNoSpace(s: string)
    requires NoSpace(s)
    ensures Strip(s) == s
  {
    if s != [] {
      assert !IsSpace(s[|s| - 1]);
      assert !IsSpace(s[0]);
    }
  }

  /** `strip()` of a string is empty exactly when the string is blank, and
      otherwise begins and ends with a non-space character of the string. */
  lemma StripShape(s: string)
    ensures Strip(s) == [] <==> Blank(s)
    ensures Strip(s) != [] ==> !IsSpace(Strip(s)[0]) && !IsSpace(Strip(s)[|Strip(s)| - 1])
  {
    var t := TrimRight(s);
    var u := TrimLeft(t);
    if t != [] {
      assert !IsSpace(s[|t| - 1]);
      assert u != [];
    } else {
      assert s[0..] == s;
    }
  }

  /** `split()` of a non-empty string without whitespace is that string. */
  lemma SplitToken(s: string)
    requires s != [] && NoSpace(s)
    ensures Split(s) == [s]
  {
    assert !IsSpace(s[|s| - 1]);
    assert TrimRight(s) == s;
    assert WordStart(s) == 0;
    assert s[..0] == [];
  }

  /** `split()` after `strip()` gives the same tokens as `split()`. */
  lemma {:induction false} SplitAfterStrip(s: string)
    ensures Split(Strip(s)) == Split(s)
  {
    var t := TrimRight(s);
    TrimRightIdempotent(s);
    var u := TrimLeft(t);
    var b := t[..|t| - |u|];
    assert t == b + u;
    SplitBlankPrefix(b, u);
    TrimRightAgain(s, t);
  }

  lemma TrimRightIdempotent(s: string)
    ensures TrimRight(TrimRight(s)) == TrimRight(s)
  {
  }

  /** `split()` only looks at `rstrip()`. */
  lemma TrimRightAgain(s: string, t: string)
    requires t == TrimRight(s)
    ensures Split(t) == Split(s)
  {
    TrimRightIdempotent(s);
  }

  /** One unfolding of `split()`: the tokens before the last one, then the
      last one. */
  lemma SplitBy(s: string, t: string, k: nat)
    requires t == TrimRight(s) && t != [] && k == WordStart(t)
    ensures Split(s) == Split(t[..k]) + [t[k..]]
  {
  }

  /** `x` is empty or ends in whitespace: no token runs across its end. */
  predicate EndsAtBreak(x: string) {
    x == [] || IsSpace(x[|x| - 1])
  }

  /** Leading whitespace does not change `split()`. */
  lemma SplitBlankPrefix(b: string, u: string)
    requires Blank(b)
    ensures Split(b + u) == Split(u)
  {
    assert EndsAtBreak(b) by {
      if b != [] {
        assert IsSpace(b[|b| - 1]);
      }
    }
    SplitAfterBreak(b, u);
  }

  /** Text that ends at a token boundary splits apart from what follows it. */
  lemma {:induction false} SplitAfterBreak(x: string, u: string)
    requires EndsAtBreak(x)
    ensures Split(x + u) == Split(x) + Split(u)
    decreases |u|
  {
    var t := TrimRight(u);
    if t == [] {
      SplitAfterBreakBlank(x, u);
    } else {
      var k := WordStart(t);
      SplitAfterBreak(x, t[..k]);
      SplitAfterBreakStep(x, u, t, k);
    }
  }

  lemma SplitAfterBreakBlank(x: string, u: string)
    requires EndsAtBreak(x) && TrimRight(u) == []
    ensures Split(x + u) == Split(x) + Split(u)
  {
    assert Split(x + u) == Split(x) by {
      TrimRightAfterBreak(x, u);
      TrimRightAgain(x + u, TrimRight(x));
      TrimRightAgain(x, TrimRight(x));
    }
    assert Split(u) == [] by {
      assert u[|TrimRight(u)|..] == u;
    }
    assert Split(x) + [] == Split(x);
  }

  /** The step of `SplitAfterBreak`: the last token of `u` is also the last
      token of `x + u`. */
  lemma SplitAfterBreakStep(x: string, u: string, t: string, k: nat)
    requires EndsAtBreak(x) && t == TrimRight(u) && t != [] && k == WordStart(t)
    requires Split(x + t[..k]) == Split(x) + Split(t[..k])
    ensures Split(x + u) == Split(x) + Split(u)
  {
    SplitBy(u, t, k);
    TrimRightAfterBreak(x, u);
    WordStartAfterBreak(x, t);
    SplitShifted(x, u, t, k);
    ConcatAssoc(Split(x), Split(t[..k]), [t[k..]]);
  }

  lemma ConcatAssoc<T>(a: seq<T>, b: seq<T>, c: seq<T>)
    ensures (a + b) + c == a + (b + c)
  {
  }

  /** A run of whitespace separates the tokens before it from those after
      it. */
  lemma SplitAroundBlank(a: string, w: string, b: string)
    requires w != [] && Blank(w)
    ensures Split(a + w + b) == Split(a) + Split(b)
  {
    var x := a + w;
    assert EndsAtBreak(x) by {
      assert x[|x| - 1] == w[|w| - 1];
    }
    SplitAfterBreak(x, b);
    assert Split(x) == Split(a) by {
      TrimRightBlankSuffix(a, w);
      TrimRightAgain(x, TrimRight(a));
      TrimRightAgain(a, TrimRight(a));
    }
  }

  /** `split()` undoes `' '.join` of whitespace-free, non-empty tokens. */
  lemma {:induction false} SplitJoinSpace(ts: seq<string>)
    requires ts != []
    requires forall i :: 0 <= i < |ts| ==> ts[i] != [] && NoSpace(ts[i])
    ensures Split(JoinOn(ts, ' ')) == ts
    decreases |ts|
  {
    if |ts| == 1 {
      SplitToken(ts[0]);
    } else {
      var rest := ts[1..];
      assert Split(JoinOn(rest, ' ')) == rest by {
        assert forall i :: 0 <= i < |rest| ==> rest[i] == ts[i + 1];
        SplitJoinSpace(rest);
      }
      SplitJoinStep(ts);
    }
  }

  lemma SplitJoinStep(ts: seq<string>)
    requires |ts| > 1 && ts[0] != [] && NoSpace(ts[0])
    requires Split(JoinOn(ts[1..], ' ')) == ts[1..]
    ensures Split(JoinOn(ts, ' ')) == ts
  {
    JoinOnCons(ts, ' ');
    SpaceIsBlank();
    SplitAroundBlank(ts[0], [' '], JoinOn(ts[1..], ' '));
    SplitToken(ts[0]);
    ConsTail(ts);
  }

  lemma JoinOnCons(fields: seq<string>, sep: char)
    requires |fields| > 1
    ensures JoinOn(fields, sep) == fields[0] + [sep] + JoinOn(fields[1..], sep)
  {
  }

  lemma SpaceIsBlank()
    ensures Blank([' '])
  {
    assert IsSpace(' ');
  }

  lemma ConsTail<T>(s: seq<T>)
    requires s != []
    ensures [s[0]] + s[1..] == s
  {
  }

  lemma {:induction false} TrimRightBlankSuffix(a: string, w: string)
    requires Blank(w)
    ensures TrimRight(a + w) == TrimRight(a)
    decreases |w|
  {
    if w == [] {
      assert a + w == a;
    } else {
      var aw := a + w;
      assert aw[|aw| - 1] == w[|w| - 1];
      assert aw[..|aw| - 1] == a + w[..|w| - 1];
      TrimRightBlankSuffix(a, w[..|w| - 1]);
    }
  }

  /** `SplitBy` for `b + u`, whose `rstrip()` is `b + t`. */
  lemma SplitShifted(b: string, u: string, t: string, k: nat)
    requires t != [] && k <= |t|
    requires TrimRight(b + u) == b + t && WordStart(b + t) == |b| + k
    ensures Split(b + u) == Split(b + t[..k]) + [t[k..]]
  {
    var bt := b + t;
    assert Split(b + u) == Split(bt[..|b| + k]) + [bt[|b| + k..]] by {
      SplitBy(b + u, bt, |b| + k);
    }
    assert bt[..|b| + k] == b + t[..k];
    assert bt[|b| + k..] == t[k..];
  }

  lemma {:induction false} TrimRightAfterBreak(x: string, u: string)
    requires EndsAtBreak(x)
    ensures TrimRight(x + u) == if TrimRight(u) == [] then TrimRight(x) else x + TrimRight(u)
    decreases |u|
  {
    if u == [] {
      assert x + u == x;
    } else {
      var xu := x + u;
      assert xu[|xu| - 1] == u[|u| - 1];
      if IsSpace(u[|u| - 1]) {
        assert xu[..|xu| - 1] == x + u[..|u| - 1];
        assert TrimRight(xu) == TrimRight(x + u[..|u| - 1]);
        assert TrimRight(u) == TrimRight(u[..|u| - 1]);
        TrimRightAfterBreak(x, u[..|u| - 1]);
      } else {
        assert TrimRight(u) == u;
        assert TrimRight(xu) == xu;
      }
    }
  }

  lemma {:induction false} WordStartAfterBreak(x: string, t: string)
    requires EndsAtBreak(x) && t != [] && !IsSpace(t[|t| - 1])
    ensures WordStart(x + t) == |x| + WordStart(t)
    decreases |t|
  {
    var p := t[..|t| - 1];
    var xt := x + t;
    assert WordStart(xt) == WordStart(x + p) by {
      assert xt[|xt| - 1] == t[|t| - 1];
      assert xt[..|xt| - 1] == x + p;
    }
    assert WordStart(t) == WordStart(p);
    if p == [] {
      assert x + p == x;
    } else if IsSpace(p[|p| - 1]) {
      assert (x + p)[|x + p| - 1] == p[|p| - 1];
    } else {
      WordStartAfterBreak(x, p);
    }
  }

  /** The last token starts right after the last whitespace character. */
  lemma {:induction false} WordStartAfterSpace(x: string, y: string)
    requires x != [] && IsSpace(x[|x| - 1]) && NoSpace(y)
    ensures WordStart(x + y) == |x|
    decreases |y|
  {
    var xy := x + y;
    if y == [] {
      assert xy == x;
    } else {
      assert xy[|xy| - 1] == y[|y| - 1];
      assert xy[..|xy| - 1] == x + y[..|y| - 1];
      WordStartAfterSpace(x, y[..|y| - 1]);
    }
  }

  /** Two tokens joined by one space split back into those tokens. */
  lemma SplitTwo(a: string, b: string)
    requires a != [] && NoSpace(a) && b != [] && NoSpace(b)
    ensures Split(a + " " + b) == [a, b]
  {
    var t := a + " " + b;
    assert t[|t| - 1] == b[|b| - 1];
    assert TrimRight(t) == t;
    WordStartAfterSpace(a + " ", b);
    assert t == (a + " ") + b;
    assert t[..|a| + 1] == a + " ";
    assert t[|a| + 1..] == b;
    assert TrimRight(a + " ") == TrimRight(a) by {
      assert (a + " ")[..|a|] == a;
    }
    assert !IsSpace(a[|a| - 1]);
    TrimRightAgain(a + " ", a);
    SplitToken(a);
  }

  /** Reading up to a separator ends the current field there. */
  lemma {:induction false} SplitOnField(a: string, sep: char, rest: string, field: string)
    requires sep !in a
    ensures SplitOnFrom(a + [sep] + rest, sep, field) == [field + a] + SplitOn(rest, sep)
    decreases |a|
  {
    if a == [] {
      assert a + [sep] + rest == [sep] + rest;
      assert field + a == field;
      assert ([sep] + rest)[1..] == rest;
    } else {
      assert (a + [sep] + rest)[1..] == a[1..] + [sep] + rest;
      SplitOnField(a[1..], sep, rest, field + [a[0]]);
      assert field + [a[0]] + a[1..] == field + a;
    }
  }

  /** `(a + sep + rest).split(sep)` starts with the field `a` when `a` holds
      no separator. */
  lemma SplitOnFirst(a: string, sep: char, rest: string)
    requires sep !in a
    ensures SplitOn(a + [sep] + rest, sep) == [a] + SplitOn(rest, sep)
  {
    SplitOnField(a, sep, rest, []);
    assert [] + a == a;
  }

  /** A string without the separator is a single field. */
  lemma {:induction false} SplitOnNone(a: string, sep: char, field: string)
    requires sep !in a
    ensures SplitOnFrom(a, sep, field) == [field + a]
    decreases |a|
  {
    if a != [] {
      SplitOnNone(a[1..], sep, field + [a[0]]);
      assert field + [a[0]] + a[1..] == field + a;
    } else {
      assert field + a == field;
    }
  }

  /** Splitting undoes joining when no field holds the separator. */
  lemma {:induction false} SplitJoin(fields: seq<string>, sep: char)
    requires fields != []
    requires forall k :: 0 <= k < |fields| ==> sep !in fields[k]
    ensures SplitOn(JoinOn(fields, sep), sep) == fields
    decreases |fields|
  {
    if |fields| == 1 {
      SplitOnNone(fields[0], sep, []);
      assert [] + fields[0] == fields[0];
    } else {
      SplitOnFirst(fields[0], sep, JoinOn(fields[1..], sep));
      SplitJoin(fields[1..], sep);
      assert fields == [fields[0]] + fields[1..];
    }
  }

  /** Joining two non-empty runs of fields puts one separator between
      their joins. */
  lemma {:induction false} JoinOnAppend(a: seq<string>, b: seq<string>, sep: char)
    requires a != [] && b != []
    ensures JoinOn(a + b, sep) == JoinOn(a, sep) + [sep] + JoinOn(b, sep)
    decreases |a|
  {
    if |a| == 1 {
      assert (a + b)[1..] == b;
    } else {
      assert (a + b)[1..] == a[1..] + b;
      JoinOnAppend(a[1..], b, sep);
    }
  }
}
