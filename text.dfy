/** The pieces of Rust's `str` API that the core leans on: `trim`,
    `trim_matches`, `find`, `contains`, `lines` and joining path components.
    A Rust `String` is modelled as a `string` of Unicode scalar values; byte
    offsets returned by `find` become character offsets. */
module Text {
  import opened Wrappers

  /** The Unicode White_Space property, which `str::trim` strips. */
  predicate IsWhitespace(c: char) {
    || c == ' '
    || ('\t' <= c <= '\r')
    || c == '\U{0085}' || c == '\U{00A0}' || c == '\U{1680}'
    || ('\U{2000}' <= c <= '\U{200A}')
    || c == '\U{2028}' || c == '\U{2029}' || c == '\U{202F}'
    || c == '\U{205F}' || c == '\U{3000}'
  }

  /** Drops the longest prefix whose characters all satisfy `p`. */
  function TrimStart(s: string, p: char -> bool): string {
    if s != [] && p(s[0]) then TrimStart(s[1..], p) else s
  }

  /** `TrimStart` leaves a suffix of `s`, removes only characters satisfying
      `p`, and stops at the first character that does not. */
  lemma {:induction false} TrimStartSpec(s: string, p: char -> bool)
    ensures var r := TrimStart(s, p);
      && |r| <= |s| && r == s[|s| - |r|..]
      && (forall k :: 0 <= k < |s| - |r| ==> p(s[k]))
      && (r == [] || !p(r[0]))
  {
    if s != [] && p(s[0]) {
      var t := s[1..];
      TrimStartSpec(t, p);
      var r := TrimStart(t, p);
      assert r == t[|t| - |r|..] == s[|s| - |r|..];
      forall k | 0 <= k < |s| - |r| ensures p(s[k]) {
        if k > 0 {
          assert s[k] == t[k - 1];
        }
      }
    }
  }

  /** Drops the longest suffix whose characters all satisfy `p`. */
  function TrimEnd(s: string, p: char -> bool): string {
    if s != [] && p(s[|s| - 1]) then TrimEnd(s[..|s| - 1], p) else s
  }

  /** `TrimEnd` leaves a prefix of `s`, removes only characters satisfying
      `p`, and stops at the last character that does not. */
  lemma {:induction false} TrimEndSpec(s: string, p: char -> bool)
    ensures var r := TrimEnd(s, p);
      && |r| <= |s| && r == s[..|r|]
      && (forall k :: |r| <= k < |s| ==> p(s[k]))
      && (r == [] || !p(r[|r| - 1]))
  {
    if s != [] && p(s[|s| - 1]) {
      var t := s[..|s| - 1];
      TrimEndSpec(t, p);
      var r := TrimEnd(t, p);
      assert r == t[..|r|] == s[..|r|];
      forall k | |r| <= k < |s| ensures p(s[k]) {
        if k < |t| {
          assert s[k] == t[k];
        }
      }
    }
  }

  /** `str::trim_matches` with a character predicate. */
  function TrimMatches(s: string, p: char -> bool): string {
    TrimEnd(TrimStart(s, p), p)
  }

  /** Neither end of a trimmed string satisfies `p`. */
  lemma TrimMatchesEnds(s: string, p: char -> bool)
    ensures var r := TrimMatches(s, p); r == [] || (!p(r[0]) && !p(r[|r| - 1]))
  {
    var u := TrimStart(s, p);
    TrimStartSpec(s, p);
    TrimEndSpec(u, p);
  }

  /** `str::trim`. */
  function Trim(s: string): string {
    TrimMatches(s, IsWhitespace)
  }

  /** A character satisfying `p` in front is trimmed away. */
  lemma TrimStartCons(c: char, s: string, p: char -> bool)
    requires p(c)
    ensures TrimStart([c] + s, p) == TrimStart(s, p)
  {
    assert ([c] + s)[1..] == s;
  }

  /** A character satisfying `p` at the back is trimmed away. */
  lemma TrimEndSnoc(s: string, c: char, p: char -> bool)
    requires p(c)
    ensures TrimEnd(s + [c], p) == TrimEnd(s, p)
  {
    assert (s + [c])[..|s|] == s;
  }

  /** A string whose ends do not satisfy `p` is left alone by `TrimMatches`. */
  lemma TrimMatchesNoop(s: string, p: char -> bool)
    requires s == [] || (!p(s[0]) && !p(s[|s| - 1]))
    ensures TrimMatches(s, p) == s
  {
  }

  /** A string without whitespace at its ends is left alone by `Trim`. */
  lemma TrimNoop(s: string)
    requires s == [] || (!IsWhitespace(s[0]) && !IsWhitespace(s[|s| - 1]))
    ensures Trim(s) == s
  {
    TrimMatchesNoop(s, IsWhitespace);
  }

  /** Every character of `s` satisfies `p`. */
  predicate All(s: string, p: char -> bool) {
    forall i :: 0 <= i < |s| ==> p(s[i])
  }

  /** `TrimStart` removes a prefix all of whose characters satisfy `p` and
      stops where the rest begins with one that does not. */
  lemma {:induction false} TrimStartSkip(w: string, s: string, p: char -> bool)
    requires All(w, p) && (s == [] || !p(s[0]))
    ensures TrimStart(w + s, p) == s
  {
    if w != [] {
      assert w + s == [w[0]] + (w[1..] + s);
      TrimStartCons(w[0], w[1..] + s, p);
      TrimStartSkip(w[1..], s, p);
    }
  }

  /** `TrimEnd` removes a suffix all of whose characters satisfy `p` and
      stops where the rest ends with one that does not. */
  lemma {:induction false} TrimEndSkip(s: string, w: string, p: char -> bool)
    requires All(w, p) && (s == [] || !p(s[|s| - 1]))
    ensures TrimEnd(s + w, p) == s
  {
    if w != [] {
      var front := w[..|w| - 1];
      assert s + w == (s + front) + [w[|w| - 1]];
      TrimEndSnoc(s + front, w[|w| - 1], p);
      TrimEndSkip(s, front, p);
    }
  }

  /** `TrimMatches` of `w1 + m + w2` is `m` when the padding `w1` and `w2`
      consists of characters satisfying `p` and neither end of `m` does. */
  lemma TrimMatchesPadded(w1: string, m: string, w2: string, p: char -> bool)
    requires All(w1, p) && All(w2, p)
    requires m == [] || (!p(m[0]) && !p(m[|m| - 1]))
    ensures TrimMatches(w1 + m + w2, p) == m
  {
    if m == [] {
      assert w1 + m + w2 == (w1 + w2) + [];
      assert All(w1 + w2, p) by {
        assert forall i :: 0 <= i < |w1 + w2| ==> (w1 + w2)[i] == if i < |w1| then w1[i] else w2[i - |w1|];
      }
      TrimStartSkip(w1 + w2, [], p);
    } else {
      assert w1 + m + w2 == w1 + (m + w2);
      assert (m + w2)[0] == m[0];
      TrimStartSkip(w1, m + w2, p);
      TrimEndSkip(m, w2, p);
    }
  }

  /** `str::find` for a single character: the first position of `c`. */
  function IndexOf(s: string, c: char): (r: Option<nat>)
    ensures r.None? <==> c !in s
    ensures r.Some? ==> r.value < |s| && s[r.value] == c && c !in s[..r.value]
  {
    if s == [] then None
    else if s[0] == c then Some(0)
    else match IndexOf(s[1..], c)
      case None => None
      case Some(i) => Some(i + 1)
  }

  /** The first occurrence of `c` in `s` is also the first one in `s + t`. */
  lemma {:induction false} IndexOfPrefix(s: string, t: string, c: char)
    requires c in s
    ensures IndexOf(s + t, c) == IndexOf(s, c)
  {
    if s[0] != c {
      assert (s + t)[1..] == s[1..] + t;
      IndexOfPrefix(s[1..], t, c);
    }
  }

  /** A character found at `i` and nowhere before is what `IndexOf` finds. */
  lemma {:induction false} IndexOfAt(s: string, c: char, i: nat)
    requires i < |s| && s[i] == c && c !in s[..i]
    ensures IndexOf(s, c) == Some(i)
  {
    if i > 0 {
      assert s[0] in s[..i];
      assert s[1..][..i - 1] == s[1..i];
      assert forall x :: x in s[1..i] ==> x in s[..i];
      IndexOfAt(s[1..], c, i - 1);
    }
  }

  /** `t` occurs in `s` at offset `i`. */
  ghost predicate OccursAt(s: string, t: string, i: int) {
    0 <= i && i + |t| <= |s| && s[i..i + |t|] == t
  }

  /** `str::contains` for a string pattern. */
  function Contains(s: string, t: string): (r: bool)
    ensures r <==> exists i :: OccursAt(s, t, i)
    decreases |s|
  {
    if |s| < |t| then false
    else if s[..|t|] == t then (assert OccursAt(s, t, 0); true)
    else
      var tail := s[1..];
      var r := Contains(tail, t);
      assert r <==> exists i :: OccursAt(s, t, i) by {
        assert !OccursAt(s, t, 0);
        forall i | 0 <= i <= |tail| - |t|
          ensures OccursAt(tail, t, i) <==> OccursAt(s, t, i + 1)
        {
          assert tail[i..i + |t|] == s[i + 1..i + 1 + |t|];
        }
        if exists i :: OccursAt(s, t, i) {
          var i :| OccursAt(s, t, i);
          assert OccursAt(tail, t, i - 1);
        }
      }
      r
  }

  /** `t` occurs in `a + t + b`. */
  lemma ContainsInfix(a: string, t: string, b: string)
    ensures Contains(a + t + b, t)
  {
    assert (a + t + b)[|a|..|a| + |t|] == t;
    assert OccursAt(a + t + b, t, |a|);
  }

  /** `s` contains `t` exactly when it splits as `a + t + b`. */
  lemma ContainsSplit(s: string, t: string)
    ensures Contains(s, t) <==> exists a, b :: s == a + t + b
  {
    if Contains(s, t) {
      var i :| OccursAt(s, t, i);
      assert s == s[..i] + t + s[i + |t|..];
    }
    if exists a, b :: s == a + t + b {
      var a, b :| s == a + t + b;
      ContainsInfix(a, t, b);
    }
  }

  /** Removes one trailing carriage return. */
  function StripCR(l: string): string {
    if |l| > 0 && l[|l| - 1] == '\r' then l[..|l| - 1] else l
  }

  /** `str::lines`: split at `\n`, strip a `\r` that stands right before a `\n`,
      and ignore a final line ending. */
  function Lines(s: string): (r: seq<string>)
    ensures s == [] <==> r == []
    decreases |s|
  {
    match IndexOf(s, '\n')
    case None => if s == [] then [] else [s]
    case Some(i) => [StripCR(s[..i])] + Lines(s[i + 1..])
  }

  /** Text that is empty or ends in a line ending. */
  predicate EndsWithNewline(s: string) {
    s == [] || s[|s| - 1] == '\n'
  }

  /** Slicing a concatenation inside its left operand. */
  lemma SliceOfConcat<T>(a: seq<T>, b: seq<T>, i: nat)
    requires i < |a|
    ensures (a + b)[..i] == a[..i]
    ensures (a + b)[i + 1..] == a[i + 1..] + b
  {
  }

  /** Lines of text whose first line feed is at `i`. */
  lemma LinesAt(u: string, i: nat)
    requires IndexOf(u, '\n') == Some(i)
    ensures Lines(u) == [StripCR(u[..i])] + Lines(u[i + 1..])
  {
  }

  /** Appending `l` and a newline to newline-terminated text adds one line. */
  lemma {:induction false} LinesAppendLine(s: string, l: string)
    requires EndsWithNewline(s)
    requires '\n' !in l
    ensures Lines(s + (l + "\n")) == Lines(s) + [StripCR(l)]
    decreases |s|
  {
    var e := l + "\n";
    if s == [] {
      LinesOfOneLine(l);
      assert s + e == e;
    } else {
      assert '\n' in s by {
        assert s[|s| - 1] == '\n';
      }
      var i := IndexOf(s, '\n').value;
      var rest := s[i + 1..];
      var first := StripCR(s[..i]);
      assert Lines(s + e) == [first] + Lines(rest + e) by {
        IndexOfPrefix(s, e, '\n');
        LinesAt(s + e, i);
        SliceOfConcat(s, e, i);
      }
      assert Lines(s) == [first] + Lines(rest) by {
        LinesAt(s, i);
      }
      assert EndsWithNewline(rest);
      LinesAppendLine(rest, l);
    }
  }

  /** Text that starts with a line without a line feed, ended by one. */
  lemma LinesCons(first: string, rest: string)
    requires '\n' !in first
    ensures Lines(first + ("\n" + rest)) == [StripCR(first)] + Lines(rest)
  {
    var t := first + ("\n" + rest);
    assert t[..|first|] == first;
    IndexOfAt(t, '\n', |first|);
    LinesAt(t, |first|);
    assert t[|first| + 1..] == rest;
  }

  /** Text without a line feed is one line. */
  lemma LinesOfUnterminated(l: string)
    requires l != [] && '\n' !in l
    ensures Lines(l) == [l]
  {
    assert IndexOf(l, '\n') == None;
  }

  lemma LinesOfOneLine(l: string)
    requires '\n' !in l
    ensures Lines(l + "\n") == [StripCR(l)]
  {
    var t := l + "\n";
    assert t[..|l|] == l;
    assert IndexOf(t, '\n') == Some(|l|) by {
      assert t[|l|] == '\n';
    }
    assert t[|l| + 1..] == [];
  }

  /** Adding a missing final line ending changes no line, provided the last
      line does not end in a carriage return. */
  lemma {:induction false} LinesTerminate(s: string)
    requires s != [] && s[|s| - 1] != '\n' && s[|s| - 1] != '\r'
    ensures Lines(s + "\n") == Lines(s)
    decreases |s|
  {
    var t := s + "\n";
    match IndexOf(s, '\n')
    case None =>
      assert '\n' !in s;
      assert t[|s|] == '\n' && t[..|s|] == s;
      assert IndexOf(t, '\n') == Some(|s|);
      assert t[|s| + 1..] == [];
    case Some(i) =>
      IndexOfPrefix(s, "\n", '\n');
      SliceOfConcat(s, "\n", i);
      assert i + 1 < |s|;
      LinesTerminate(s[i + 1..]);
  }

  /** Joins components with a separator (`"a/b/c"`); no components give `""`. */
  function Join(parts: seq<string>, sep: char): (r: string)
    ensures |parts| == 1 ==> r == parts[0]
  {
    if parts == [] then []
    else if |parts| == 1 then parts[0]
    else parts[0] + [sep] + Join(parts[1..], sep)
  }
}
