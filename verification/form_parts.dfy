/** FormElementParser::split_form_parts (inc/forms.php): the form markup, with
    comments and line breaks removed, cut into text runs, `<label>` runs,
    paired `[name ...]...[/name]` runs and bare `[...]` runs. */
module FormParts {
  import opened PhpStrings
  import opened FormPatterns

  /** preg_replace("/<!--.*?-->/s", "", $input): each leftmost `<!--` up to the
      first `-->` after it is removed, and the search goes on after it. An
      unclosed `<!--` stays, and so does everything after it. */
  function RemoveComments(s: string): (r: string)
    ensures |r| <= |s|
    ensures Find(s, "<!--", 0, false).None? ==> r == s
    decreases |s|
  {
    match Find(s, "<!--", 0, false)
    case None => s
    case Some(i) =>
      match Find(s, "-->", i + 4, false)
      case None => s
      case Some(j) => s[..i] + RemoveComments(s[j + 3..])
  }

  /** A pattern that occurs nowhere inside `s[lo..hi]` and matches at no
      position of it that runs past `hi` matches nowhere from `lo` to `hi`. */
  lemma {:induction false} NoMatchWithin(s: string, lo: nat, hi: nat, pat: string)
    requires lo <= hi <= |s|
    requires !Contains(s[lo..hi], pat)
    requires forall q :: lo <= q < hi && hi < q + |pat| ==> !MatchesAt(s, q, pat, false)
    ensures forall q :: lo <= q < hi ==> !MatchesAt(s, q, pat, false)
  {
    forall q | lo <= q < hi && q + |pat| <= hi
      ensures !MatchesAt(s, q, pat, false)
    {
      assert !OccursAt(s[lo..hi], q - lo, pat);
      var t := s[lo..hi];
      var u, w := t[q - lo..q - lo + |pat|], s[q..q + |pat|];
      forall k | 0 <= k < |pat| ensures u[k] == w[k] {
        assert t[q - lo + k] == s[q + k];
      }
      assert u == w;
      assert s[q..q + |pat|] != pat;
      MatchIsOccurrence(s, q, pat);
    }
  }

  /** An exact match at `q` is the pattern itself, sliced out at `q`. */
  lemma {:induction false} MatchIsOccurrence(s: string, q: nat, pat: string)
    requires q + |pat| <= |s|
    ensures MatchesAt(s, q, pat, false) ==> s[q..q + |pat|] == pat
  {
    var w := s[q..q + |pat|];
    if MatchesAt(s, q, pat, false) {
      forall k | 0 <= k < |pat| ensures w[k] == pat[k] {
        assert SameChar(s[q + k], pat[k], false);
      }
    }
  }

  /** Find stops at the first match. */
  lemma {:induction false} FindAt(s: string, pat: string, from: nat, i: nat)
    requires from <= i && MatchesAt(s, i, pat, false)
    requires forall q :: from <= q < i ==> !MatchesAt(s, q, pat, false)
    ensures Find(s, pat, from, false) == Some(i)
  {
    FindIsFirst(s, pat, from, false);
  }

  /** A closed comment is cut out whole: the text before it stays, and the
      search goes on after its `-->`. */
  lemma {:induction false} RemoveCommentsDropsComment(a: string, b: string, c: string)
    requires !Contains(a, "<!--") && !Contains(b, "-->")
    ensures RemoveComments(a + "<!--" + b + "-->" + c) == a + RemoveComments(c)
  {
    var s := a + "<!--" + b + "-->" + c;
    var i, e := |a|, |a| + 4 + |b|;
    assert s[i..i + 4] == "<!--" && s[e..e + 3] == "-->";
    assert s[..i] == a && s[i + 4..e] == b && s[e + 3..] == c;
    assert s[0..i] == a;
    forall q | 0 <= q < i && i < q + 4
      ensures !MatchesAt(s, q, "<!--", false)
    {
      assert s[i] == '<' && "<!--"[i - q] != '<';
    }
    NoMatchWithin(s, 0, i, "<!--");
    FindAt(s, "<!--", 0, i);
    forall q | i + 4 <= q < e && e < q + 3
      ensures !MatchesAt(s, q, "-->", false)
    {
      assert s[e] == '-' && s[e + 1] == '-';
      assert s[q + 2] == '-' && "-->"[2] == '>';
      assert !SameChar(s[q + 2], "-->"[2], false);
    }
    NoMatchWithin(s, i + 4, e, "-->");
    FindAt(s, "-->", i + 4, e);
  }

  /** str_replace(["\r", "\n"], "", $input). */
  function StripLineBreaks(s: string): (r: string)
    ensures |r| <= |s|
    ensures forall i :: 0 <= i < |r| ==> r[i] != '\r' && r[i] != '\n'
    ensures (forall i :: 0 <= i < |s| ==> s[i] != '\r' && s[i] != '\n') ==> r == s
  {
    if s == [] then []
    else if s[0] == '\r' || s[0] == '\n' then StripLineBreaks(s[1..])
    else [s[0]] + StripLineBreaks(s[1..])
  }

  /** Removing line breaks works piece by piece, so every other character is
      kept, in order. */
  lemma {:induction false} StripLineBreaksAppend(a: string, b: string)
    ensures StripLineBreaks(a + b) == StripLineBreaks(a) + StripLineBreaks(b)
  {
    if a == [] {
      assert a + b == b;
    } else {
      var c, t := a[0], a[1..];
      assert a == [c] + t;
      assert a + b == [c] + (t + b);
      StripLineBreaksCons(c, t);
      StripLineBreaksCons(c, t + b);
      StripLineBreaksAppend(t, b);
      var rt, rb := StripLineBreaks(t), StripLineBreaks(b);
      if c == '\r' || c == '\n' {
        assert [] + rt == rt && [] + (rt + rb) == rt + rb;
      } else {
        LeadingCharRegroups(c, rt, rb);
      }
    }
  }

  lemma {:induction false} LeadingCharRegroups(c: char, x: string, y: string)
    ensures [c] + (x + y) == ([c] + x) + y
  {
  }

  /** One character in front: a line break is dropped, anything else kept. */
  lemma {:induction false} StripLineBreaksCons(c: char, t: string)
    ensures StripLineBreaks([c] + t) == (if c == '\r' || c == '\n' then [] else [c]) + StripLineBreaks(t)
  {
    var s := [c] + t;
    assert s[0] == c && s[1..] == t;
  }

  /** The text split_form_parts actually cuts. */
  function Normalize(input: string): string {
    StripLineBreaks(RemoveComments(input))
  }

  /** The search for the next match: the positions from `from` on are tried
      in turn until the matcher reports a match. */
  method FindNextMatch(m: Matcher, len: nat, from: nat) returns (r: Option<(nat, nat)>)
    requires from <= len
    ensures r == NextMatch(m, len, from)
  {
    var pos := from;
    while pos < len && m(pos).None?
      invariant from <= pos <= len
      invariant NextMatch(m, len, pos) == NextMatch(m, len, from)
      decreases len - pos
    {
      pos := pos + 1;
    }
    if pos == len {
      r := None;
    } else {
      r := Some((pos, m(pos).value));
    }
  }

  /** Parts already emitted, a head and the parts after it regroup freely. */
  lemma {:induction false} PartsRegroup(a: seq<string>, b: seq<string>, c: seq<string>)
    ensures a + (b + c) == (a + b) + c
  {
  }

  /** The loop over the matches: the text before each match (when there is
      any), the match, and after the last match the rest of the text. The
      result puts the text back together exactly, and none of its parts is
      empty, so the final array_filter drops nothing. */
  method SplitAtMatches(s: string, m: Matcher) returns (parts: seq<string>)
    requires Sound(m, |s|)
    ensures parts == Segments(m, s, 0)
    ensures Concat(parts) == s
    ensures forall i :: 0 <= i < |parts| ==> parts[i] != ""
  {
    parts := [];
    var offset := 0;
    var done := false;
    while !done
      invariant offset <= |s|
      invariant done ==> parts == Segments(m, s, 0)
      invariant !done ==> parts + Segments(m, s, offset) == Segments(m, s, 0)
      decreases |s| - offset, if done then 0 else 1
    {
      var next := FindNextMatch(m, |s|, offset);
      match next
      case Some((start, end)) =>
        var head := if start > offset then [s[offset..start], s[start..end]] else [s[start..end]];
        PartsRegroup(parts, head, Segments(m, s, end));
        parts := parts + head;
        offset := end;
      case None =>
        if offset < |s| {
          parts := parts + [s[offset..]];
        }
        done := true;
    }
    SegmentsCover(m, s, 0);
  }

  /** split_form_parts: the normalized text cut at the matches of the part pattern. */
  method SplitFormParts(input: string) returns (parts: seq<string>)
    ensures parts == Segments(MatcherOf(FormPart, Normalize(input)), Normalize(input), 0)
    ensures Concat(parts) == Normalize(input)
    ensures forall i :: 0 <= i < |parts| ==> parts[i] != ""
  {
    var s := Normalize(input);
    parts := SplitAtMatches(s, MatcherOf(FormPart, s));
  }
}
