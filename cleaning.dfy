/** `clean_text(t) = re.sub(r'\s+', ' ', t).strip()`: every whitespace run becomes one space,
    then the ends are trimmed. */
module Cleaning {
  import opened Strings

  /** Every whitespace character is a space standing between two non-whitespace characters:
      no leading, trailing or doubled whitespace, and no tab or newline. */
  predicate SingleSpaced(r: string)
  {
    forall i :: 0 <= i < |r| && IsWhitespace(r[i]) ==>
      r[i] == ' ' && 0 < i < |r| - 1 && !IsWhitespace(r[i - 1]) && !IsWhitespace(r[i + 1])
  }

  /** `re.sub(r'\s+', ' ', t)`: each maximal whitespace run is replaced by a single space. */
  function Collapse(t: string): (r: string)
    ensures r == [] <==> t == []
    ensures r != [] ==> (IsWhitespace(r[0]) <==> IsWhitespace(t[0]))
    ensures forall i :: 0 <= i < |r| && IsWhitespace(r[i]) ==>
      r[i] == ' ' && (i + 1 < |r| ==> !IsWhitespace(r[i + 1]))
    decreases |t|
  {
    if t == [] then []
    else if IsWhitespace(t[0]) then " " + Collapse(t[LeadLen(t)..])
    else [t[0]] + Collapse(t[1..])
  }

  /** `clean_text(t)`: a single-spaced string holding exactly the words of `t`. */
  function CleanText(t: string): (r: string)
    ensures SingleSpaced(r)
    ensures Words(r) == Words(t)
  {
    StripCollapsed(Collapse(t));
    WordsOfStrip(Collapse(t));
    WordsOfCollapse(t);
    Strip(Collapse(t))
  }

  /** Collapsing whitespace runs keeps every word. */
  lemma {:induction false} WordsOfCollapse(t: string)
    ensures Words(Collapse(t)) == Words(t)
    decreases |t|
  {
    if t != [] {
      if IsWhitespace(t[0]) {
        var rest := t[LeadLen(t)..];
        WordsOfCollapse(rest);
        assert (" " + Collapse(rest))[1..] == Collapse(rest);
        WordsAfterLead(t);
      } else {
        WordsOfCollapse(t[1..]);
        assert ([t[0]] + Collapse(t[1..]))[1..] == Collapse(t[1..]);
      }
    }
  }

  lemma WordsAfterLead(t: string)
    ensures Words(t) == Words(t[LeadLen(t)..])
  {
    var n := LeadLen(t);
    assert t == t[..n] + t[n..];
    assert AllWhitespace(t[..n]) by {
      forall i | 0 <= i < n ensures IsWhitespace(t[..n][i]) {
        assert t[..n][i] == t[i];
      }
    }
    WordsAppend(t[..n], t[n..]);
    WordsOfWhitespace(t[..n]);
  }

  /** Stripping a collapsed string leaves it single-spaced. */
  lemma StripCollapsed(x: string)
    requires forall i :: 0 <= i < |x| && IsWhitespace(x[i]) ==>
      x[i] == ' ' && (i + 1 < |x| ==> !IsWhitespace(x[i + 1]))
    ensures SingleSpaced(Strip(x))
  {
    var r := Strip(x);
    var i := LeadLen(x);
    forall k | 0 <= k < |r| && IsWhitespace(r[k])
      ensures r[k] == ' ' && 0 < k < |r| - 1 && !IsWhitespace(r[k - 1]) && !IsWhitespace(r[k + 1])
    {
      assert r[k] == x[i + k];
      assert r[k + 1] == x[i + k + 1];
      assert r[k - 1] == x[i + k - 1];
    }
  }

  /** A single-spaced string is its words joined by single spaces. */
  lemma {:induction false} SingleSpacedIsJoin(r: string)
    requires SingleSpaced(r)
    ensures r == Join(" ", Words(r))
    decreases |r|
  {
    if |r| == 1 {
    } else if |r| > 1 {
      var c := r[0];
      if !IsWhitespace(r[1]) {
        var r' := r[1..];
        assert SingleSpaced(r') by {
          forall k | 0 <= k < |r'| && IsWhitespace(r'[k])
            ensures r'[k] == ' ' && 0 < k < |r'| - 1 && !IsWhitespace(r'[k - 1]) && !IsWhitespace(r'[k + 1])
          {
            assert r'[k] == r[k + 1] && r'[k + 1] == r[k + 2] && r'[k - 1] == r[k];
          }
        }
        SingleSpacedIsJoin(r');
        var rest := Words(r');
        JoinCons(c, rest);
        assert r == [c] + r';
      } else {
        var r'' := r[2..];
        assert SingleSpaced(r'') by {
          forall k | 0 <= k < |r''| && IsWhitespace(r''[k])
            ensures r''[k] == ' ' && 0 < k < |r''| - 1 && !IsWhitespace(r''[k - 1]) && !IsWhitespace(r''[k + 1])
          {
            assert r''[k] == r[k + 2] && r''[k + 1] == r[k + 3] && r''[k - 1] == r[k + 1];
          }
        }
        SingleSpacedIsJoin(r'');
        assert r[1..][1..] == r'';
        assert Words(r[1..]) == Words(r'');
        assert r == [c] + " " + r'';
      }
    }
  }

  lemma JoinCons(c: char, words: seq<string>)
    requires words != []
    ensures Join(" ", [[c] + words[0]] + words[1..]) == [c] + Join(" ", words)
  {
    var ws := [[c] + words[0]] + words[1..];
    if |words| > 1 {
      assert ws[1..] == words[1..];
    }
  }

  /** `clean_text(t) == " ".join(t.split())`: an independent description of the result. */
  lemma CleanTextIsJoinedWords(t: string)
    ensures CleanText(t) == Join(" ", Words(t))
  {
    SingleSpacedIsJoin(CleanText(t));
  }

  /** Cleaning twice is cleaning once. */
  lemma CleanTextIdempotent(t: string)
    ensures CleanText(CleanText(t)) == CleanText(t)
  {
    CleanTextIsJoinedWords(t);
    CleanTextIsJoinedWords(CleanText(t));
  }

  /** A cleaned text is blank exactly when it is empty, and is blank exactly when the
      original was: `clean_text(t).strip()` is truthy iff `t.strip()` is. */
  lemma CleanTextBlank(t: string)
    ensures Strip(CleanText(t)) == CleanText(t)
    ensures CleanText(t) == "" <==> AllWhitespace(t)
  {
    var r := CleanText(t);
    StripOfStripped(r);
    WordsOfWhitespace(t);
    WordsOfWhitespace(r);
  }
}
