/** `extract_youtube_id(url)`: the first group of the leftmost match of
    `(?:youtube\.com/watch\?v=|youtu\.be/)([A-Za-z0-9_\-]{6,})` in `url`, or `None`. */
module YouTube {
  import opened Wrappers

  const WatchPrefix: string := "youtube.com/watch?v="
  const ShortPrefix: string := "youtu.be/"
  /** The quantifier `{6,}`. */
  const MinIdLength: nat := 6

  /** The character class `[A-Za-z0-9_\-]`. */
  predicate IsIdChar(c: char)
  {
    ('A' <= c <= 'Z') || ('a' <= c <= 'z') || ('0' <= c <= '9') || c == '_' || c == '-'
  }

  predicate HasPrefixAt(s: string, p: int, prefix: string)
  {
    0 <= p && p + |prefix| <= |s| && s[p..p + |prefix|] == prefix
  }

  /** `id` is a maximal run of id characters, of the required length, starting at `i`. */
  predicate Captures(s: string, i: int, id: string)
  {
    && 0 <= i && i + |id| <= |s| && s[i..i + |id|] == id
    && |id| >= MinIdLength
    && (forall k :: 0 <= k < |id| ==> IsIdChar(id[k]))
    && (i + |id| == |s| || !IsIdChar(s[i + |id|]))
  }

  /** The pattern matches at position `p`, with `id` as its group: one of the two prefixes
      starts at `p` and the greedy group right after it captures `id`. */
  predicate IsMatch(s: string, p: int, id: string)
  {
    || (HasPrefixAt(s, p, WatchPrefix) && Captures(s, p + |WatchPrefix|, id))
    || (HasPrefixAt(s, p, ShortPrefix) && Captures(s, p + |ShortPrefix|, id))
  }

  /** Where the run of id characters starting at `i` ends. */
  function IdRunEnd(s: string, i: nat): (e: nat)
    requires i <= |s|
    ensures i <= e <= |s|
    ensures forall j :: i <= j < e ==> IsIdChar(s[j])
    ensures e == |s| || !IsIdChar(s[e])
    decreases |s| - i
  {
    if i < |s| && IsIdChar(s[i]) then IdRunEnd(s, i + 1) else i
  }

  /** The attempt the regular-expression engine makes at position `p`: the first alternative,
      then the second, then the greedy group. Backtracking into the group cannot help, since
      a shorter run is never long enough when the longest one is not. */
  function MatchAt(s: string, p: nat): Option<string>
  {
    var start :=
      if HasPrefixAt(s, p, WatchPrefix) then Some(p + |WatchPrefix|)
      else if HasPrefixAt(s, p, ShortPrefix) then Some(p + |ShortPrefix|)
      else None;
    match start
    case None => None
    case Some(i) =>
      var e := IdRunEnd(s, i);
      if e - i >= MinIdLength then Some(s[i..e]) else None
  }

  lemma {:induction false} IdRunEndAt(s: string, i: nat, e: nat)
    requires i <= e <= |s|
    requires forall j :: i <= j < e ==> IsIdChar(s[j])
    requires e == |s| || !IsIdChar(s[e])
    ensures IdRunEnd(s, i) == e
    decreases e - i
  {
    if i < e {
      IdRunEndAt(s, i + 1, e);
    }
  }

  /** The two prefixes never both start at the same position. */
  lemma PrefixesExclusive(s: string, p: int)
    ensures !(HasPrefixAt(s, p, WatchPrefix) && HasPrefixAt(s, p, ShortPrefix))
  {
    if HasPrefixAt(s, p, WatchPrefix) {
      assert s[p + 5] == WatchPrefix[5];
      assert s[p..p + |ShortPrefix|][5] != ShortPrefix[5];
    }
  }

  lemma CapturesUnique(s: string, i: int, id: string)
    requires Captures(s, i, id)
    ensures IdRunEnd(s, i) == i + |id|
  {
    forall j | i <= j < i + |id| ensures IsIdChar(s[j]) {
      assert s[j] == id[j - i];
    }
    IdRunEndAt(s, i, i + |id|);
  }

  /** The attempt at `p` succeeds exactly with the matches at `p`. */
  lemma MatchAtSpec(s: string, p: nat)
    ensures MatchAt(s, p).Some? ==> IsMatch(s, p, MatchAt(s, p).value)
    ensures forall id :: IsMatch(s, p, id) ==> MatchAt(s, p) == Some(id)
  {
    MatchAtSound(s, p);
    forall id | IsMatch(s, p, id) ensures MatchAt(s, p) == Some(id) {
      MatchAtComplete(s, p, id);
    }
  }

  lemma MatchAtSound(s: string, p: nat)
    ensures MatchAt(s, p).Some? ==> IsMatch(s, p, MatchAt(s, p).value)
  {
    if HasPrefixAt(s, p, WatchPrefix) {
      CapturesRun(s, p + |WatchPrefix|);
    } else if HasPrefixAt(s, p, ShortPrefix) {
      CapturesRun(s, p + |ShortPrefix|);
    }
  }

  /** A long enough run of id characters is captured whole. */
  lemma CapturesRun(s: string, i: nat)
    requires i <= |s|
    ensures var e := IdRunEnd(s, i); e - i >= MinIdLength ==> Captures(s, i, s[i..e])
  {
    var e := IdRunEnd(s, i);
    var id := s[i..e];
    assert forall k :: 0 <= k < |id| ==> id[k] == s[i + k];
  }

  lemma MatchAtComplete(s: string, p: nat, id: string)
    requires IsMatch(s, p, id)
    ensures MatchAt(s, p) == Some(id)
  {
    PrefixesExclusive(s, p);
    var i := if HasPrefixAt(s, p, WatchPrefix) then p + |WatchPrefix| else p + |ShortPrefix|;
    assert Captures(s, i, id);
    CapturesUnique(s, i, id);
  }

  /** The match at `p` is the first one at or after `from`. */
  ghost predicate IsLeftmostMatch(s: string, from: int, p: int, id: string)
  {
    from <= p && IsMatch(s, p, id) && forall q, id' :: from <= q < p ==> !IsMatch(s, q, id')
  }

  /** `pattern.search(s, from)`: the group of the leftmost match at or after `from`. */
  function Search(s: string, from: nat): (r: Option<string>)
    ensures r.Some? ==> exists p :: IsLeftmostMatch(s, from, p, r.value)
    ensures r.None? ==> forall q, id :: from <= q ==> !IsMatch(s, q, id)
    decreases |s| - from
  {
    if from >= |s| then
      assert forall q, id :: from <= q && IsMatch(s, q, id) ==> q < |s|;
      None
    else
      MatchAtSpec(s, from);
      match MatchAt(s, from)
      case Some(id) =>
        assert IsLeftmostMatch(s, from, from, id);
        Some(id)
      case None =>
        var r := Search(s, from + 1);
        assert r.Some? ==> exists p :: IsLeftmostMatch(s, from, p, r.value) by {
          if r.Some? {
            var p :| IsLeftmostMatch(s, from + 1, p, r.value);
            assert IsLeftmostMatch(s, from, p, r.value);
          }
        }
        r
  }

  /** `extract_youtube_id(url)`: the group of the leftmost match, so a run of at least six
      id characters that cannot be extended and that directly follows the first occurrence
      of a prefix that is followed by such a run; `None` when there is no match anywhere. */
  function ExtractYoutubeId(url: string): (r: Option<string>)
    ensures r.Some? ==> exists p :: IsLeftmostMatch(url, 0, p, r.value)
    ensures r.None? ==> forall p, id :: !IsMatch(url, p, id)
  {
    Search(url, 0)
  }

  /** At any position there is at most one match, so "the" id at a position is well defined. */
  lemma MatchDeterminesId(s: string, p: nat, id1: string, id2: string)
    requires IsMatch(s, p, id1) && IsMatch(s, p, id2)
    ensures id1 == id2
  {
    MatchAtSpec(s, p);
  }

}
