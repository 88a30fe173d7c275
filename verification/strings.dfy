/** The string operations the pipeline and the views rely on: Python's `strip()` and
    `lower()`, JavaScript's `trim()`, `toLowerCase()`, `includes()`, `split(c)` and
    `join(sep)`. Each language's whitespace set is modelled in full; case mapping is
    restricted to ASCII letters. */
module Strings {

  /** Whose `strip` is meant: Python's `str.strip()` and JavaScript's `trim()` remove
      slightly different sets of characters. */
  datatype Lang = Python | JavaScript

  /** The whitespace both languages remove: the ASCII controls tab to carriage return,
      the space, and Unicode's space separators and line and paragraph separators. */
  predicate IsCommonSpace(c: char) {
    || '\t' <= c <= '\r'
    || c == ' ' || c == '\U{00A0}' || c == '\U{1680}'
    || '\U{2000}' <= c <= '\U{200A}'
    || c == '\U{2028}' || c == '\U{2029}' || c == '\U{202F}' || c == '\U{205F}' || c == '\U{3000}'
  }

  /** What the language's strip removes: Python's `str.isspace()` also holds for the
      ASCII separators U+001C to U+001F and for U+0085; JavaScript's `trim()` also
      removes the byte-order mark U+FEFF. */
  predicate IsSpace(lang: Lang, c: char) {
    || IsCommonSpace(c)
    || (lang == Python && ('\U{001C}' <= c <= '\U{001F}' || c == '\U{0085}'))
    || (lang == JavaScript && c == '\U{FEFF}')
  }

  predicate AllSpace(lang: Lang, s: string) {
    forall i :: 0 <= i < |s| ==> IsSpace(lang, s[i])
  }

  /** No whitespace at either end. */
  predicate IsTrimmed(lang: Lang, s: string) {
    |s| == 0 || (!IsSpace(lang, s[0]) && !IsSpace(lang, s[|s| - 1]))
  }

  /** `r` is what is left of `s` after removing the whitespace-only prefix `s[..i]`
      and a whitespace-only suffix. */
  predicate FramedBySpace(lang: Lang, s: string, r: string, i: int) {
    && 0 <= i && i + |r| <= |s|
    && r == s[i..i + |r|]
    && AllSpace(lang, s[..i])
    && AllSpace(lang, s[i + |r|..])
  }

  function TrimStart(lang: Lang, s: string): (r: string)
    ensures |r| <= |s|
    ensures |r| == 0 || !IsSpace(lang, r[0])
    decreases |s|
  {
    if |s| > 0 && IsSpace(lang, s[0]) then TrimStart(lang, s[1..]) else s
  }

  /** `TrimStart` cuts a whitespace-only prefix. */
  lemma {:induction false} TrimStartCuts(lang: Lang, s: string)
    ensures TrimStart(lang, s) == s[|s| - |TrimStart(lang, s)|..]
    ensures AllSpace(lang, s[..|s| - |TrimStart(lang, s)|])
    decreases |s|
  {
    if |s| > 0 && IsSpace(lang, s[0]) {
      var rest := s[1..];
      TrimStartCuts(lang, rest);
      var n := |s| - |TrimStart(lang, s)|;
      assert TrimStart(lang, s) == TrimStart(lang, rest);
      assert rest[n - 1..] == s[n..];
      forall i | 0 <= i < n
        ensures IsSpace(lang, s[..n][i])
      {
        if i == 0 {
          assert s[..n][0] == s[0];
        } else {
          assert s[..n][i] == rest[..n - 1][i - 1];
          assert IsSpace(lang, rest[..n - 1][i - 1]);
        }
      }
    }
  }

  function TrimEnd(lang: Lang, s: string): (r: string)
    ensures |r| <= |s|
    ensures |r| == 0 || !IsSpace(lang, r[|r| - 1])
    decreases |s|
  {
    if |s| > 0 && IsSpace(lang, s[|s| - 1]) then TrimEnd(lang, s[..|s| - 1]) else s
  }

  /** `TrimEnd` cuts a whitespace-only suffix. */
  lemma {:induction false} TrimEndCuts(lang: Lang, s: string)
    ensures TrimEnd(lang, s) == s[..|TrimEnd(lang, s)|]
    ensures AllSpace(lang, s[|TrimEnd(lang, s)|..])
    decreases |s|
  {
    if |s| > 0 && IsSpace(lang, s[|s| - 1]) {
      var front := s[..|s| - 1];
      TrimEndCuts(lang, front);
      var n := |TrimEnd(lang, s)|;
      assert TrimEnd(lang, s) == TrimEnd(lang, front);
      assert front[..n] == s[..n];
      forall i | 0 <= i < |s| - n
        ensures IsSpace(lang, s[n..][i])
      {
        if i < |s| - 1 - n {
          assert s[n..][i] == front[n..][i];
          assert IsSpace(lang, front[n..][i]);
        } else {
          assert s[n..][i] == s[|s| - 1];
        }
      }
    }
  }

  /** Python `str.strip()` and JavaScript `String.prototype.trim()`, by `lang`. */
  function Strip(lang: Lang, s: string): (r: string)
    ensures IsTrimmed(lang, r)
  {
    TrimEndCuts(lang, TrimStart(lang, s));
    TrimEnd(lang, TrimStart(lang, s))
  }

  /** A strip removes only whitespace, and only at the two ends. */
  lemma StripFrames(lang: Lang, s: string)
    ensures exists i :: FramedBySpace(lang, s, Strip(lang, s), i)
  {
    var t := TrimStart(lang, s);
    var r := TrimEnd(lang, t);
    TrimStartCuts(lang, s);
    TrimEndCuts(lang, t);
    assert s[|s| - |t|..][..|r|] == s[|s| - |t|..|s| - |t| + |r|];
    assert s[|s| - |t| + |r|..] == t[|r|..];
    assert Strip(lang, s) == r;
    assert FramedBySpace(lang, s, r, |s| - |t|);
  }

  /** Stripping changes nothing once there is no whitespace at either end. */
  lemma StripTrimmed(lang: Lang, s: string)
    requires IsTrimmed(lang, s)
    ensures Strip(lang, s) == s
  {
  }

  lemma StripIdempotent(lang: Lang, s: string)
    ensures Strip(lang, Strip(lang, s)) == Strip(lang, s)
  {
    StripTrimmed(lang, Strip(lang, s));
  }

  /** Leading whitespace never survives a strip. */
  lemma {:induction false} StripAfterSpace(lang: Lang, p: string, s: string)
    requires AllSpace(lang, p)
    ensures Strip(lang, p + s) == Strip(lang, s)
    decreases |p|
  {
    if |p| > 0 {
      assert (p + s)[1..] == p[1..] + s;
      StripAfterSpace(lang, p[1..], s);
    } else {
      assert p + s == s;
    }
  }

  /** The two languages disagree at the edges of their whitespace sets: Python strips
      the unit separator U+001F and JavaScript does not; JavaScript strips the
      byte-order mark U+FEFF and Python does not. */
  lemma StripLanguagesDiffer()
    ensures Strip(Python, "x\U{001F}") == "x" && Strip(JavaScript, "x\U{001F}") == "x\U{001F}"
    ensures Strip(JavaScript, "\U{FEFF}x") == "x" && Strip(Python, "\U{FEFF}x") == "\U{FEFF}x"
  {
    assert TrimStart(Python, "x\U{001F}") == "x\U{001F}";
    assert "x\U{001F}"[..1] == "x";
    assert TrimStart(JavaScript, "\U{FEFF}x") == "x";
  }

  predicate IsUpper(c: char) {
    'A' <= c <= 'Z'
  }

  function LowerChar(c: char): char {
    if IsUpper(c) then ((c as int) + 32) as char else c
  }

  /** Python `str.lower()` and JavaScript `toLowerCase()` on ASCII letters. */
  function Lower(s: string): (r: string)
    ensures |r| == |s|
    ensures forall i :: 0 <= i < |s| ==> r[i] == LowerChar(s[i])
  {
    seq(|s|, i requires 0 <= i < |s| => LowerChar(s[i]))
  }

  predicate IsLowerCase(s: string) {
    forall i :: 0 <= i < |s| ==> !IsUpper(s[i])
  }

  lemma LowerIsLowerCase(s: string)
    ensures IsLowerCase(Lower(s))
  {
  }

  /** Lower-casing does not create or remove the characters `strip` and the e-mail
      syntax check look at. */
  lemma LowerKeepsChar(s: string, c: char)
    requires !IsUpper(c) && !('a' <= c <= 'z')
    ensures c in Lower(s) <==> c in s
  {
    if c in s {
      var i :| 0 <= i < |s| && s[i] == c;
      assert Lower(s)[i] == c;
    }
    if c in Lower(s) {
      var i :| 0 <= i < |s| && Lower(s)[i] == c;
      assert s[i] == c;
    }
  }

  /** A strip keeps a lower-case string lower-case: it only cuts a piece out of it. */
  lemma StripKeepsLowerCase(lang: Lang, s: string)
    requires IsLowerCase(s)
    ensures IsLowerCase(Strip(lang, s))
  {
    var t := TrimStart(lang, s);
    TrimStartCuts(lang, s);
    TrimEndCuts(lang, t);
    assert IsLowerCase(t) by {
      forall k | 0 <= k < |t|
        ensures !IsUpper(t[k])
      {
        assert t[k] == s[|s| - |t| + k];
      }
    }
    var r := TrimEnd(lang, t);
    assert IsLowerCase(r) by {
      forall k | 0 <= k < |r|
        ensures !IsUpper(r[k])
      {
        assert r[k] == t[k];
      }
    }
  }

  predicate OccursAt(s: string, t: string, i: int) {
    0 <= i <= |s| - |t| && s[i..i + |t|] == t
  }

  /** JavaScript `s.includes(t)`: `t` occurs in `s` at some position. */
  predicate Contains(s: string, t: string) {
    exists i | 0 <= i <= |s| - |t| :: OccursAt(s, t, i)
  }

  lemma ContainsInfix(a: string, t: string, b: string)
    ensures Contains(a + t + b, t)
  {
    var s := a + t + b;
    assert s[|a|..|a| + |t|] == t;
    assert OccursAt(s, t, |a|);
  }

  /** An occurrence in a piece is an occurrence in the whole. */
  lemma ContainsWithin(a: string, s: string, b: string, t: string)
    requires Contains(s, t)
    ensures Contains(a + s + b, t)
  {
    var i :| 0 <= i <= |s| - |t| && OccursAt(s, t, i);
    var w := a + s + b;
    assert w[|a| + i..|a| + i + |t|] == s[i..i + |t|];
    assert OccursAt(w, t, |a| + i);
  }

  /** `Array.prototype.join(sep)` and Python `sep.join(parts)`. */
  function Join(parts: seq<string>, sep: string): string
  {
    if |parts| == 0 then ""
    else if |parts| == 1 then parts[0]
    else parts[0] + sep + Join(parts[1..], sep)
  }

  /** JavaScript `s.split(c)` with a one-character separator: every occurrence of `c`
      cuts. The lemmas below state that there is one more piece than there are
      separators, that no piece holds one, and that joining gives `s` back. */
  function Split(s: string, sep: char): (r: seq<string>)
    ensures |r| >= 1
    decreases |s|
  {
    if |s| == 0 then [""]
    else
      var rest := Split(s[1..], sep);
      if s[0] == sep then [""] + rest else [[s[0]] + rest[0]] + rest[1..]
  }

  lemma {:induction false} SplitCount(s: string, sep: char)
    ensures |Split(s, sep)| == multiset(s)[sep] + 1
    decreases |s|
  {
    if |s| > 0 {
      SplitCount(s[1..], sep);
      assert s == [s[0]] + s[1..];
      assert multiset(s)[sep] == multiset([s[0]])[sep] + multiset(s[1..])[sep];
    }
  }

  lemma {:induction false} SplitPiecesFree(s: string, sep: char)
    ensures forall i :: 0 <= i < |Split(s, sep)| ==> sep !in Split(s, sep)[i]
    decreases |s|
  {
    if |s| > 0 {
      SplitPiecesFree(s[1..], sep);
      var rest := Split(s[1..], sep);
      if s[0] != sep {
        var r := Split(s, sep);
        assert r[0] == [s[0]] + rest[0];
        assert forall i :: 1 <= i < |r| ==> r[i] == rest[i];
      }
    }
  }

  lemma {:induction false} SplitJoinBack(s: string, sep: char)
    ensures Join(Split(s, sep), [sep]) == s
    decreases |s|
  {
    if |s| > 0 {
      SplitJoinBack(s[1..], sep);
      var rest := Split(s[1..], sep);
      var r := Split(s, sep);
      assert s == [s[0]] + s[1..];
      if s[0] == sep {
        assert r[1..] == rest;
      } else {
        assert r[1..] == rest[1..];
        if |rest| == 1 {
          assert Join(r, [sep]) == [s[0]] + rest[0];
        } else {
          assert Join(r, [sep]) == [s[0]] + rest[0] + [sep] + Join(rest[1..], [sep]);
        }
      }
    }
  }

  lemma {:induction false} SplitNoSeparator(s: string, sep: char)
    requires sep !in s
    ensures Split(s, sep) == [s]
    decreases |s|
  {
    if |s| > 0 {
      SplitNoSeparator(s[1..], sep);
      assert s == [s[0]] + s[1..];
    }
  }

  lemma {:induction false} SplitAfterPiece(a: string, sep: char, b: string)
    requires sep !in a
    ensures Split(a + [sep] + b, sep) == [a] + Split(b, sep)
    decreases |a|
  {
    var s := a + [sep] + b;
    if |a| == 0 {
      assert s[1..] == b;
    } else {
      assert s[1..] == a[1..] + [sep] + b;
      SplitAfterPiece(a[1..], sep, b);
      assert [a[0]] + a[1..] == a;
    }
  }

  /** Splitting a join recovers the pieces, provided none of them contains the
      separator. */
  lemma {:induction false} SplitJoin(parts: seq<string>, sep: char)
    requires |parts| >= 1
    requires forall i :: 0 <= i < |parts| ==> sep !in parts[i]
    ensures Split(Join(parts, [sep]), sep) == parts
    decreases |parts|
  {
    if |parts| == 1 {
      SplitNoSeparator(parts[0], sep);
    } else {
      SplitAfterPiece(parts[0], sep, Join(parts[1..], [sep]));
      SplitJoin(parts[1..], sep);
      assert [parts[0]] + parts[1..] == parts;
    }
  }

  /** Every piece but the first, prefixed by `x`. */
  function PrefixRest(x: string, parts: seq<string>): (r: seq<string>)
    requires |parts| >= 1
    ensures |r| == |parts| && r[0] == parts[0]
    ensures forall i :: 1 <= i < |parts| ==> r[i] == x + parts[i]
  {
    seq(|parts|, i requires 0 <= i < |parts| => if i == 0 then parts[0] else x + parts[i])
  }

  /** A multi-character separator `c + x` is the separator `c` followed by `x` at the
      start of every later piece. */
  lemma {:induction false} JoinLongSeparator(parts: seq<string>, c: char, x: string)
    requires |parts| >= 1
    ensures Join(parts, [c] + x) == Join(PrefixRest(x, parts), [c])
    decreases |parts|
  {
    if |parts| > 1 {
      var tail := parts[1..];
      JoinLongSeparator(tail, c, x);
      var l := PrefixRest(x, parts);
      var lt := PrefixRest(x, tail);
      assert l[1..] == [x + tail[0]] + lt[1..];
      if |tail| == 1 {
        assert Join(l[1..], [c]) == x + tail[0];
      } else {
        assert Join(l[1..], [c]) == x + tail[0] + [c] + Join(lt[1..], [c]);
        assert Join(lt, [c]) == tail[0] + [c] + Join(lt[1..], [c]);
      }
    }
  }
}
