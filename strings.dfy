/** The parts of Python's `str` that the summarizer relies on: `isspace()`, `strip()`,
    `split()` without a separator, `split(sep)` with a one-character separator and `sep.join(...)`. */
module Strings {

  /** `c.isspace()`. The regular-expression class `\s`, `str.split()` and `str.strip()`
      all use this same set of characters. */
  predicate IsWhitespace(c: char)
  {
    || c == ' '
    || '\t' <= c <= '\r'
    || '\U{1C}' <= c <= '\U{1F}'
    || c == '\U{85}' || c == '\U{A0}' || c == '\U{1680}'
    || '\U{2000}' <= c <= '\U{200A}'
    || c == '\U{2028}' || c == '\U{2029}' || c == '\U{202F}' || c == '\U{205F}' || c == '\U{3000}'
  }

  predicate AllWhitespace(s: string)
  {
    forall i :: 0 <= i < |s| ==> IsWhitespace(s[i])
  }

  predicate NoWhitespace(s: string)
  {
    forall i :: 0 <= i < |s| ==> !IsWhitespace(s[i])
  }

  /** The number of whitespace characters at the front of `s`. */
  function LeadLen(s: string): (n: nat)
    ensures n <= |s|
    ensures forall i :: 0 <= i < n ==> IsWhitespace(s[i])
    ensures n == |s| || !IsWhitespace(s[n])
    decreases |s|
  {
    if s != [] && IsWhitespace(s[0]) then 1 + LeadLen(s[1..]) else 0
  }

  /** The length of `s` without the whitespace characters at its end. */
  function TrimLen(s: string): (n: nat)
    ensures n <= |s|
    ensures forall i :: n <= i < |s| ==> IsWhitespace(s[i])
    ensures n == 0 || !IsWhitespace(s[n - 1])
    decreases |s|
  {
    if s != [] && IsWhitespace(s[|s| - 1]) then TrimLen(s[..|s| - 1]) else |s|
  }

  /** `s.strip()`: the part of `s` between its leading and its trailing whitespace. */
  function Strip(s: string): (r: string)
    ensures |r| <= |s|
    ensures r == [] || (!IsWhitespace(r[0]) && !IsWhitespace(r[|r| - 1]))
    ensures r == [] <==> AllWhitespace(s)
    ensures var i := LeadLen(s);
      i + |r| <= |s| && s[i..i + |r|] == r && AllWhitespace(s[..i]) && AllWhitespace(s[i + |r|..])
  {
    var i := LeadLen(s);
    var n := TrimLen(s[i..]);
    StripSlice(s, i, n);
    s[i..i + n]
  }

  /** The facts `Strip` promises, about the slice it returns. */
  lemma StripSlice(s: string, i: nat, n: nat)
    requires i == LeadLen(s) && n == TrimLen(s[i..])
    ensures i + n <= |s|
    ensures var r := s[i..i + n];
      && |r| == n
      && (r == [] || (!IsWhitespace(r[0]) && !IsWhitespace(r[|r| - 1])))
      && (r == [] <==> AllWhitespace(s))
      && s[i..i + |r|] == r && AllWhitespace(s[..i]) && AllWhitespace(s[i + |r|..])
  {
    StripLead(s);
    StripTrail(s);
    StripEnds(s);
    StripBlank(s);
    var r := s[i..i + n];
    assert |r| == n;
    if n > 0 {
      assert r[0] == s[i] && r[n - 1] == s[i + n - 1];
    }
  }

  lemma StripLead(s: string)
    ensures AllWhitespace(s[..LeadLen(s)])
  {
    var i := LeadLen(s);
    forall j | 0 <= j < i ensures IsWhitespace(s[..i][j]) {
      assert s[..i][j] == s[j];
    }
  }

  lemma StripTrail(s: string)
    ensures var i := LeadLen(s); AllWhitespace(s[i + TrimLen(s[i..])..])
  {
    var i := LeadLen(s);
    var t := s[i..];
    assert s[i + TrimLen(t)..] == t[TrimLen(t)..];
    TrimmedTail(t);
  }

  /** What `TrimLen` cuts off is all whitespace. */
  lemma TrimmedTail(t: string)
    ensures AllWhitespace(t[TrimLen(t)..])
  {
    var n := TrimLen(t);
    forall j | 0 <= j < |t| - n ensures IsWhitespace(t[n..][j]) {
      assert t[n..][j] == t[n + j];
    }
  }

  lemma StripEnds(s: string)
    ensures var i := LeadLen(s); var n := TrimLen(s[i..]);
      n == 0 || (!IsWhitespace(s[i]) && !IsWhitespace(s[i + n - 1]))
  {
    var i := LeadLen(s);
    var t := s[i..];
    var n := TrimLen(t);
    if n > 0 {
      assert s[i] == t[0] && s[i + n - 1] == t[n - 1];
    }
  }

  lemma StripBlank(s: string)
    ensures var i := LeadLen(s); TrimLen(s[i..]) == 0 <==> AllWhitespace(s)
  {
    var i := LeadLen(s);
    var t := s[i..];
    var n := TrimLen(t);
    if n == 0 {
      assert i == |s|;
      StripLead(s);
      assert s[..i] == s;
    } else {
      assert t[n - 1] == s[i + n - 1];
    }
  }

  /** A string that `strip()` leaves as it is. */
  lemma StripOfStripped(s: string)
    requires s == [] || (!IsWhitespace(s[0]) && !IsWhitespace(s[|s| - 1]))
    ensures Strip(s) == s
  {
  }

  /** Whitespace put in front of a stripped string is stripped away again. */
  lemma StripPadded(w: string, u: string)
    requires AllWhitespace(w)
    requires u != [] && !IsWhitespace(u[0]) && !IsWhitespace(u[|u| - 1])
    ensures Strip(w + u) == u
  {
    var s := w + u;
    LeadLenPadded(w, u);
    var r := Strip(s);
    var n := |w|;
    assert s[n..n + |r|] == r;
    assert s[n] == u[0];
    assert r != [];
    assert s[n..n + |u|] == u;
  }

  lemma LeadLenPadded(w: string, u: string)
    requires AllWhitespace(w)
    requires u != [] && !IsWhitespace(u[0])
    ensures LeadLen(w + u) == |w|
  {
    assert (w + u)[|w|] == u[0];
  }

  /** Stripping adds no character. */
  lemma StripWithout(s: string, c: char)
    requires c !in s
    ensures c !in Strip(s)
  {
  }

  /** `s.split()`: the maximal runs of non-whitespace characters of `s`, in order. */
  function Words(s: string): (words: seq<string>)
    ensures s != [] && !IsWhitespace(s[0]) ==> words != []
    decreases |s|
  {
    if s == [] then []
    else if IsWhitespace(s[0]) then Words(s[1..])
    else
      var rest := Words(s[1..]);
      if |s| > 1 && !IsWhitespace(s[1]) then [[s[0]] + rest[0]] + rest[1..] else [[s[0]]] + rest
  }

  /** Every word is a non-empty run of non-whitespace characters. */
  lemma {:induction false} WordsAreRuns(s: string)
    ensures forall j :: 0 <= j < |Words(s)| ==> Words(s)[j] != [] && NoWhitespace(Words(s)[j])
    decreases |s|
  {
    if s != [] {
      WordsAreRuns(s[1..]);
      if !IsWhitespace(s[0]) {
        var rest := Words(s[1..]);
        var w := Words(s);
        if |s| > 1 && !IsWhitespace(s[1]) {
          var first := [s[0]] + rest[0];
          assert NoWhitespace(first) by {
            forall i | 0 <= i < |first| ensures !IsWhitespace(first[i]) {
              if i > 0 {
                assert first[i] == rest[0][i - 1];
              }
            }
          }
          assert forall j :: 1 <= j < |w| ==> w[j] == rest[j];
        } else {
          assert forall j :: 1 <= j < |w| ==> w[j] == rest[j - 1];
        }
      }
    }
  }

  /** `len(s.split())` */
  function WordCount(s: string): nat
  {
    |Words(s)|
  }

  /** The words of each part, in order: `[w for p in parts for w in p.split()]`. */
  function WordsOfEach(parts: seq<string>): seq<string>
  {
    if parts == [] then [] else Words(parts[0]) + WordsOfEach(parts[1..])
  }

  /** `sep.join(parts)` */
  function Join(sep: string, parts: seq<string>): (r: string)
    ensures parts != [] ==> |parts[0]| <= |r| && r[..|parts[0]|] == parts[0]
  {
    if parts == [] then ""
    else if |parts| == 1 then parts[0]
    else parts[0] + sep + Join(sep, parts[1..])
  }

  /** Two strings whose concatenation does not glue a word of one to a word of the other. */
  predicate Separated(a: string, b: string)
  {
    a == [] || b == [] || IsWhitespace(a[|a| - 1]) || IsWhitespace(b[0])
  }

  /** Concatenating at a whitespace boundary concatenates the words. */
  lemma {:induction false} WordsAppend(a: string, b: string)
    requires Separated(a, b)
    ensures Words(a + b) == Words(a) + Words(b)
    decreases |a|
  {
    if a == [] {
      assert a + b == b;
    } else {
      SeparatedTail(a, b);
      WordsAppend(a[1..], b);
      WordsAppendStep(a, b);
    }
  }

  lemma SeparatedTail(a: string, b: string)
    requires a != [] && Separated(a, b)
    ensures Separated(a[1..], b)
  {
    if |a| > 1 {
      assert a[1..][|a| - 2] == a[|a| - 1];
    }
  }

  /** The step of `WordsAppend`: from the words of `a[1..] + b` to those of `a + b`. */
  lemma WordsAppendStep(a: string, b: string)
    requires a != [] && Separated(a, b)
    requires Words(a[1..] + b) == Words(a[1..]) + Words(b)
    ensures Words(a + b) == Words(a) + Words(b)
  {
    if IsWhitespace(a[0]) {
      WordsAppendSpace(a, b);
    } else if |a| > 1 && !IsWhitespace(a[1]) {
      WordsAppendInside(a, b);
    } else if |a| > 1 {
      WordsAppendCut(a, b);
    } else {
      WordsAppendLast(a, b);
    }
  }

  lemma WordsAppendSpace(a: string, b: string)
    requires a != [] && IsWhitespace(a[0])
    requires Words(a[1..] + b) == Words(a[1..]) + Words(b)
    ensures Words(a + b) == Words(a) + Words(b)
  {
    TailOfAppend(a, b);
    WordsSkip(a);
    WordsSkip(a + b);
  }

  lemma WordsAppendInside(a: string, b: string)
    requires |a| > 1 && !IsWhitespace(a[0]) && !IsWhitespace(a[1])
    requires Words(a[1..] + b) == Words(a[1..]) + Words(b)
    ensures Words(a + b) == Words(a) + Words(b)
  {
    HeadOfAppend(a, b);
    var wt, wb := Words(a[1..]), Words(b);
    WordsGlued(a);
    WordsGlued(a + b);
    TailOfAppend(wt, wb);
    AppendAssoc([[a[0]] + wt[0]], wt[1..], wb);
  }

  lemma WordsAppendCut(a: string, b: string)
    requires |a| > 1 && !IsWhitespace(a[0]) && IsWhitespace(a[1])
    requires Words(a[1..] + b) == Words(a[1..]) + Words(b)
    ensures Words(a + b) == Words(a) + Words(b)
  {
    HeadOfAppend(a, b);
    WordsEnded(a);
    WordsEnded(a + b);
    AppendAssoc([[a[0]]], Words(a[1..]), Words(b));
  }

  lemma WordsAppendLast(a: string, b: string)
    requires |a| == 1 && !IsWhitespace(a[0]) && Separated(a, b)
    ensures Words(a + b) == Words(a) + Words(b)
  {
    var ab := a + b;
    assert ab[0] == a[0] && ab[1..] == b;
    if b != [] {
      assert ab[1] == b[0];
    }
    WordsEnded(a);
    WordsEnded(ab);
  }

  /** A leading whitespace character separates nothing. */
  lemma WordsSkip(s: string)
    requires s != [] && IsWhitespace(s[0])
    ensures Words(s) == Words(s[1..])
  {
  }

  /** The first two characters belong to the same word. */
  lemma WordsGlued(s: string)
    requires |s| > 1 && !IsWhitespace(s[0]) && !IsWhitespace(s[1])
    ensures Words(s[1..]) != []
    ensures Words(s) == [[s[0]] + Words(s[1..])[0]] + Words(s[1..])[1..]
  {
    assert s[1..][0] == s[1];
  }

  /** The first character is a word of its own. */
  lemma WordsEnded(s: string)
    requires s != [] && !IsWhitespace(s[0]) && (|s| == 1 || IsWhitespace(s[1]))
    ensures Words(s) == [[s[0]]] + Words(s[1..])
  {
  }

  /** Dropping a whitespace run from between two parts keeps every word. */
  lemma WordsAroundGap(first: string, gap: string, rest: string)
    requires gap != [] && AllWhitespace(gap)
    ensures Words(first + gap + rest) == Words(first) + Words(rest)
  {
    var front := first + gap;
    assert Separated(front, rest) by {
      assert front[|front| - 1] == gap[|gap| - 1];
    }
    WordsAppend(front, rest);
    WordsAppend(first, gap);
    WordsOfWhitespace(gap);
  }

  /** A string has no words exactly when it is all whitespace. */
  lemma WordsOfWhitespace(s: string)
    ensures Words(s) == [] <==> AllWhitespace(s)
  {
  }

  lemma WordsOfStrip(s: string)
    ensures Words(Strip(s)) == Words(s)
  {
    var i := LeadLen(s);
    var r := Strip(s);
    var lead, trail := s[..i], s[i + |r|..];
    SliceThree(s, i, i + |r|);
    WordsAppend(lead + r, trail);
    WordsAppend(lead, r);
    WordsOfWhitespace(lead);
    WordsOfWhitespace(trail);
  }

  lemma {:induction false} WordsOfEachAppend(a: seq<string>, b: seq<string>)
    ensures WordsOfEach(a + b) == WordsOfEach(a) + WordsOfEach(b)
    decreases |a|
  {
    if a != [] {
      assert (a + b)[1..] == a[1..] + b;
      WordsOfEachAppend(a[1..], b);
    } else {
      assert a + b == b;
    }
  }

  /** The words of a prefix of the parts are a prefix of the words of all parts. */
  lemma WordsOfEachPrefix(parts: seq<string>, k: nat)
    requires k <= |parts|
    ensures |WordsOfEach(parts[..k])| <= |WordsOfEach(parts)|
    ensures WordsOfEach(parts[..k]) == WordsOfEach(parts)[..|WordsOfEach(parts[..k])|]
  {
    assert parts == parts[..k] + parts[k..];
    WordsOfEachAppend(parts[..k], parts[k..]);
  }

  /** Joining with a whitespace separator neither merges nor splits any word. */
  lemma {:induction false} WordsOfJoin(sep: string, parts: seq<string>)
    requires sep != [] && AllWhitespace(sep)
    ensures Words(Join(sep, parts)) == WordsOfEach(parts)
    decreases |parts|
  {
    if |parts| == 1 {
      assert WordsOfEach(parts) == Words(parts[0]) + WordsOfEach([]);
    } else if |parts| > 1 {
      WordsAroundGap(parts[0], sep, Join(sep, parts[1..]));
      WordsOfJoin(sep, parts[1..]);
    }
  }

  /** `s.split(sep)` for a one-character separator: the text between separators,
      always at least one piece (`"".split(",") == [""]`). */
  function SplitOn(s: string, sep: char): (pieces: seq<string>)
    ensures |pieces| >= 1
    ensures forall j :: 0 <= j < |pieces| ==> sep !in pieces[j]
    decreases |s|
  {
    if s == [] then [""]
    else
      var rest := SplitOn(s[1..], sep);
      if s[0] == sep then [""] + rest else [[s[0]] + rest[0]] + rest[1..]
  }

  /** Joining the pieces with the separator gives back the string. */
  lemma {:induction false} JoinSplitOn(s: string, sep: char)
    ensures Join([sep], SplitOn(s, sep)) == s
    decreases |s|
  {
    if s != [] {
      var rest := SplitOn(s[1..], sep);
      JoinSplitOn(s[1..], sep);
      if s[0] == sep {
        assert ([""] + rest)[1..] == rest;
      } else if |rest| > 1 {
        var pieces := [[s[0]] + rest[0]] + rest[1..];
        assert pieces[1..] == rest[1..];
        assert Join([sep], rest) == rest[0] + [sep] + Join([sep], rest[1..]);
      }
    }
  }

  lemma {:induction false} SplitOnWithout(a: string, sep: char)
    requires sep !in a
    ensures SplitOn(a, sep) == [a]
    decreases |a|
  {
    if a != [] {
      assert a[0] != sep && sep !in a[1..];
      SplitOnWithout(a[1..], sep);
      assert [a[0]] + a[1..] == a;
    }
  }

  lemma {:induction false} SplitOnAt(a: string, sep: char, b: string)
    requires sep !in a
    ensures SplitOn(a + [sep] + b, sep) == [a] + SplitOn(b, sep)
    decreases |a|
  {
    if a == [] {
      assert a + [sep] + b == [sep] + b;
      assert ([sep] + b)[1..] == b;
    } else {
      assert a[0] != sep && sep !in a[1..];
      var s := a + [sep] + b;
      assert s[0] == a[0] && s[1..] == a[1..] + [sep] + b;
      SplitOnAt(a[1..], sep, b);
      assert [a[0]] + a[1..] == a;
    }
  }

  /** Splitting a join of separator-free pieces gives back the pieces. */
  lemma {:induction false} SplitOnJoin(parts: seq<string>, sep: char)
    requires parts != [] && forall j :: 0 <= j < |parts| ==> sep !in parts[j]
    ensures SplitOn(Join([sep], parts), sep) == parts
    decreases |parts|
  {
    if |parts| == 1 {
      SplitOnWithout(parts[0], sep);
    } else {
      SplitOnAt(parts[0], sep, Join([sep], parts[1..]));
      SplitOnJoin(parts[1..], sep);
    }
  }

  // Identities of sequences, stated once so that the proofs above stay small.

  lemma AppendAssoc<T>(x: seq<T>, y: seq<T>, z: seq<T>)
    ensures x + (y + z) == (x + y) + z
  {
  }

  lemma PrefixSnoc<T>(s: seq<T>, i: nat)
    requires i < |s|
    ensures s[..i + 1] == s[..i] + [s[i]]
  {
    assert s[..i + 1] == s[..i] + [s[i]];
  }

  lemma TailOfAppend<T>(x: seq<T>, y: seq<T>)
    requires x != []
    ensures (x + y)[0] == x[0] && (x + y)[1..] == x[1..] + y
  {
    assert (x + y)[1..] == x[1..] + y;
  }

  lemma HeadOfAppend<T>(x: seq<T>, y: seq<T>)
    requires |x| > 1
    ensures (x + y)[0] == x[0] && (x + y)[1] == x[1] && (x + y)[1..] == x[1..] + y
  {
    TailOfAppend(x, y);
  }

  /** A sequence is the concatenation of its three slices at `k` and `e`. */
  lemma SliceThree<T>(s: seq<T>, k: nat, e: nat)
    requires k <= e <= |s|
    ensures s == s[..k] + s[k..e] + s[e..]
  {
    assert s[..e] == s[..k] + s[k..e];
    assert s == s[..e] + s[e..];
  }
}
