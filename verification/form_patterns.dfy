/** The two PCRE patterns of the form code, written out as explicit scanners.

    Both are searched the way preg_match_all and preg_split search: the
    leftmost position with a match wins, at one position the alternatives are
    tried in the order written, `.*?` takes the shortest run that lets the rest
    match, and the search resumes where the last match ended. Every match is
    non-empty, so no empty match rules are needed. */
module FormPatterns {
  import opened PhpStrings

  datatype Pattern =
      /** split_form_parts, flags x, i and s:
          `(<label>.*?</label>) | (\[([a-zA-Z0-9_]+)[^\]]*\].*?\[/\3\]) | (\[[a-zA-Z0-9_]+[^\]]*\])` */
    | FormPart
      /** parse_form_elements' preg_split, no flags: `(\[[\w*]+[^\]]*\])` */
    | TagDelimiter

  /** `[a-zA-Z0-9_]`, which is also `\w` outside UTF mode. */
  predicate IsWordChar(c: char) {
    'a' <= c <= 'z' || 'A' <= c <= 'Z' || '0' <= c <= '9' || c == '_'
  }

  /** The characters a tag name may hold in each pattern. */
  predicate IsNameChar(pat: Pattern, c: char) {
    IsWordChar(c) || (pat.TagDelimiter? && c == '*')
  }

  /** The end of the longest run of name characters that starts at `i`. */
  function NameEnd(pat: Pattern, s: string, i: nat): (r: nat)
    requires i <= |s|
    ensures i <= r <= |s|
    ensures r < |s| ==> !IsNameChar(pat, s[r])
    decreases |s| - i
  {
    if i < |s| && IsNameChar(pat, s[i]) then NameEnd(pat, s, i + 1) else i
  }

  /** The run NameEnd measures holds name characters only: it is the longest one. */
  lemma {:induction false} NameEndIsLongest(pat: Pattern, s: string, i: nat)
    requires i <= |s|
    ensures forall k :: i <= k < NameEnd(pat, s, i) ==> IsNameChar(pat, s[k])
    decreases |s| - i
  {
    if i < |s| && IsNameChar(pat, s[i]) {
      NameEndIsLongest(pat, s, i + 1);
    }
  }

  /** Alternative 1 at `p`: `<label>` up to the first `</label>` after it, both caseless. */
  function LabelRunAt(s: string, p: nat): (r: Option<nat>)
    ensures r.Some? ==> MatchesAt(s, p, "<label>", true) && p + 15 <= r.value <= |s|
    ensures r.Some? ==> MatchesAt(s, r.value - 8, "</label>", true)
  {
    if MatchesAt(s, p, "<label>", true) then
      match Find(s, "</label>", p + 7, true)
      case Some(q) => Some(q + 8)
      case None => None
    else None
  }

  /** The lazy `.*?` of alternative 1: the run ends at the first `</label>`
      after the `<label>`, and without one there is no run. */
  lemma {:induction false} LabelRunAtIsLazy(s: string, p: nat)
    ensures LabelRunAt(s, p).Some? ==>
              forall q :: p + 7 <= q < LabelRunAt(s, p).value - 8 ==> !MatchesAt(s, q, "</label>", true)
    ensures LabelRunAt(s, p).None? && MatchesAt(s, p, "<label>", true) ==>
              forall q :: p + 7 <= q ==> !MatchesAt(s, q, "</label>", true)
  {
    FindIsFirst(s, "</label>", p + 7, true);
  }

  /** The closing tag `[/name]` for the first `k` characters of the name that
      starts after the `[` at `p` occurs at `q`, the name compared caseless. */
  predicate ClosesAt(s: string, p: nat, k: nat, q: nat) {
    p + 1 + k <= |s| && q + k + 3 <= |s| &&
    s[q] == '[' && s[q + 1] == '/' && SameName(s, p + 1, q + 2, k) && s[q + k + 2] == ']'
  }

  /** The `k` characters from `a` and the `k` characters from `b` are equal
      up to ASCII case. */
  predicate SameName(s: string, a: nat, b: nat, k: nat)
    requires a + k <= |s| && b + k <= |s|
    decreases k
  {
    k == 0 || (Lower(s[a + k - 1]) == Lower(s[b + k - 1]) && SameName(s, a, b, k - 1))
  }

  /** SameName is the caseless match of the first run at the second. */
  lemma {:induction false} SameNameMatches(s: string, a: nat, b: nat, k: nat)
    requires a + k <= |s| && b + k <= |s|
    ensures SameName(s, a, b, k) <==> MatchesAt(s, b, s[a..a + k], true)
    decreases k
  {
    if k > 0 {
      SameNameMatches(s, a, b, k - 1);
      var whole, shorter := s[a..a + k], s[a..a + k - 1];
      if MatchesAt(s, b, whole, true) {
        forall i | 0 <= i < k - 1
          ensures SameChar(s[b + i], shorter[i], true)
        {
          assert shorter[i] == whole[i];
        }
        assert SameChar(s[b + k - 1], whole[k - 1], true);
      }
      if SameName(s, a, b, k) {
        forall i | 0 <= i < k
          ensures SameChar(s[b + i], whole[i], true)
        {
          if i < k - 1 {
            assert shorter[i] == whole[i];
          }
        }
      }
    }
  }

  /** The first position at or after `from` where that closing tag occurs. */
  function FindClose(s: string, p: nat, k: nat, from: nat): (r: Option<nat>)
    requires p + 1 + k <= |s|
    ensures r.Some? ==> from <= r.value && ClosesAt(s, p, k, r.value)
    decreases |s| - from
  {
    if from + k + 3 > |s| then None
    else if ClosesAt(s, p, k, from) then Some(from)
    else FindClose(s, p, k, from + 1)
  }

  /** FindClose returns the first closing tag, and None only when there is none. */
  lemma {:induction false} FindCloseIsFirst(s: string, p: nat, k: nat, from: nat)
    requires p + 1 + k <= |s|
    ensures FindClose(s, p, k, from).Some? ==>
              forall q :: from <= q < FindClose(s, p, k, from).value ==> !ClosesAt(s, p, k, q)
    ensures FindClose(s, p, k, from).None? ==> forall q :: from <= q ==> !ClosesAt(s, p, k, q)
    decreases |s| - from
  {
    if from + k + 3 <= |s| && !ClosesAt(s, p, k, from) {
      FindCloseIsFirst(s, p, k, from + 1);
    }
  }

  /** Alternative 2 after its `[name...]` head, the head's `]` being at `e`:
      the name is tried at its full length `n` first and then shorter (greedy
      backtracking), and for each length the lazy `.*?` stops at the first
      caseless `[/name]`. The result is the name length and where the closing
      tag starts. */
  function PairedClose(s: string, p: nat, e: nat, n: nat): (r: Option<(nat, nat)>)
    requires p + 1 + n <= e < |s|
    ensures r.Some? ==> 1 <= r.value.0 <= n && e < r.value.1 && ClosesAt(s, p, r.value.0, r.value.1)
    decreases n
  {
    if n == 0 then None
    else
      match FindClose(s, p, n, e + 1)
      case Some(q) => Some((n, q))
      case None => PairedClose(s, p, e, n - 1)
  }

  /** PairedClose backtracks as PCRE does: the longest name length that has a
      closing tag after the head wins, and for it the first such tag. */
  lemma {:induction false} PairedCloseIsFirst(s: string, p: nat, e: nat, n: nat)
    requires p + 1 + n <= e < |s|
    ensures var r := PairedClose(s, p, e, n);
      (r.Some? ==> forall q :: e < q < r.value.1 ==> !ClosesAt(s, p, r.value.0, q)) &&
      (r.Some? ==> forall k, q :: r.value.0 < k <= n && e < q ==> !ClosesAt(s, p, k, q)) &&
      (r.None? ==> forall k, q :: 1 <= k <= n && e < q ==> !ClosesAt(s, p, k, q))
    decreases n
  {
    if n > 0 {
      FindCloseIsFirst(s, p, n, e + 1);
      if FindClose(s, p, n, e + 1).None? {
        PairedCloseIsFirst(s, p, e, n - 1);
      }
    }
  }

  /** Alternatives 2 and 3 of FormPart, or the single alternative of TagDelimiter, at `p`. */
  function TagAt(pat: Pattern, s: string, p: nat): (r: Option<nat>)
    ensures r.Some? ==> p < |s| && s[p] == '[' && p + 2 < r.value <= |s|
  {
    if p < |s| && s[p] == '[' then
      var w := NameEnd(pat, s, p + 1);
      if w == p + 1 then None
      else
        match FindChar(s, ']', w)
        case None => None
        case Some(e) =>
          if pat.FormPart? then
            match PairedClose(s, p, e, w - p - 1)
            case Some((k, q)) => Some(q + k + 3)
            case None => Some(e + 1)
          else Some(e + 1)
    else None
  }

  /** The end of the match that starts at `p`, if one does. */
  function MatchAt(pat: Pattern, s: string, p: nat): (r: Option<nat>)
    ensures r.Some? ==> p < r.value <= |s|
  {
    if pat.FormPart? && LabelRunAt(s, p).Some? then LabelRunAt(s, p) else TagAt(pat, s, p)
  }

  /** A matcher reports, for each start position, where the match found
      there ends, if one is found. */
  type Matcher = nat -> Option<nat>

  /** Every match a matcher reports on a text of length `len` is non-empty
      and stays inside the text. */
  ghost predicate Sound(m: Matcher, len: nat) {
    forall p: nat :: m(p).Some? ==> p < m(p).value <= len
  }

  /** The matcher of a pattern on a text. */
  function MatcherOf(pat: Pattern, s: string): (m: Matcher)
    ensures Sound(m, |s|)
  {
    (p: nat) => MatchAt(pat, s, p)
  }

  /** The leftmost match that starts at or after `from`, as (start, end). */
  function NextMatch(m: Matcher, len: nat, from: nat): (r: Option<(nat, nat)>)
    requires from <= len
    ensures r.Some? ==> from <= r.value.0 < len && m(r.value.0) == Some(r.value.1)
    decreases len - from
  {
    if from == len then None
    else
      match m(from)
      case Some(e) => Some((from, e))
      case None => NextMatch(m, len, from + 1)
  }

  /** NextMatch is the leftmost match: no match starts before it, and None
      means no match starts anywhere from `from` on. */
  lemma {:induction false} NextMatchIsLeftmost(m: Matcher, len: nat, from: nat)
    requires from <= len
    ensures var r := NextMatch(m, len, from);
      (r.Some? ==> forall q :: from <= q < r.value.0 ==> m(q).None?) &&
      (r.None? ==> forall q :: from <= q < len ==> m(q).None?)
    decreases len - from
  {
    if from < len && m(from).None? {
      NextMatchIsLeftmost(m, len, from + 1);
    }
  }

  /** One step of Segments: a run (when not empty), a match, and the rest. */
  lemma {:induction false} SegmentsStep(s: string, from: nat, a: nat, b: nat, rest: seq<string>)
    requires from <= a < b <= |s|
    requires Concat(rest) == s[b..]
    ensures Concat((if from < a then [s[from..a], s[a..b]] else [s[a..b]]) + rest) == s[from..]
  {
    var head := if from < a then [s[from..a], s[a..b]] else [s[a..b]];
    ConcatAppend(head, rest);
    if from < a {
      assert Concat(head) == s[from..a] + (s[a..b] + Concat([]));
    } else {
      assert Concat(head) == s[a..b] + Concat([]);
    }
    assert s[from..] == s[from..a] + s[a..b] + s[b..];
  }

  /** The text from `from` on, cut into the runs between matches and the
      matches themselves, empty runs dropped: the result shape of both
      split_form_parts and preg_split with PREG_SPLIT_DELIM_CAPTURE and
      PREG_SPLIT_NO_EMPTY. Nothing is lost, repeated or left empty. */
  function Segments(m: Matcher, s: string, from: nat): (r: seq<string>)
    requires Sound(m, |s|) && from <= |s|
    decreases |s| - from
  {
    match NextMatch(m, |s|, from)
    case None =>
      if from < |s| then [s[from..]] else []
    case Some((a, b)) =>
      var rest := Segments(m, s, b);
      var head := if from < a then [s[from..a], s[a..b]] else [s[a..b]];
      head + rest
  }

  /** Segments loses nothing, repeats nothing and leaves no part empty. */
  lemma {:induction false} SegmentsCover(m: Matcher, s: string, from: nat)
    requires Sound(m, |s|) && from <= |s|
    ensures Concat(Segments(m, s, from)) == s[from..]
    ensures forall i :: 0 <= i < |Segments(m, s, from)| ==> Segments(m, s, from)[i] != ""
    decreases |s| - from
  {
    match NextMatch(m, |s|, from)
    case None =>
      if from < |s| {
        assert Concat([s[from..]]) == s[from..] + Concat([]);
      }
    case Some((a, b)) =>
      var rest := Segments(m, s, b);
      SegmentsCover(m, s, b);
      SegmentsStep(s, from, a, b, rest);
  }

  lemma {:induction false} NoLabelRunAtBracket(s: string, p: nat)
    requires p < |s| && s[p] == '['
    ensures LabelRunAt(s, p).None?
  {
    assert !SameChar(s[p], "<label>"[0], true);
  }

  /** At a `[name ...]` head whose first `]` is at `e`, the part pattern
      matches up to the closing tag PairedClose finds, or the head alone. */
  lemma {:induction false} FormPartAtBracket(s: string, p: nat, e: nat)
    requires p < |s| && s[p] == '['
    requires NameEnd(FormPart, s, p + 1) > p + 1
    requires FindChar(s, ']', NameEnd(FormPart, s, p + 1)) == Some(e)
    ensures var n := NameEnd(FormPart, s, p + 1) - p - 1;
      MatchAt(FormPart, s, p) ==
        match PairedClose(s, p, e, n)
        case Some(kq) => Some(kq.1 + kq.0 + 3)
        case None => Some(e + 1)
  {
    NoLabelRunAtBracket(s, p);
  }

  /** A `[name ...]` head whose first `]` is at `e` starts a part that runs past
      that `]` exactly when, after it, a caseless `[/k]` follows for some
      leading piece `k` of the name; otherwise the head alone is the part. */
  lemma {:induction false} PairedPartNeedsClosingTag(s: string, p: nat, e: nat)
    requires p < |s| && s[p] == '['
    requires NameEnd(FormPart, s, p + 1) > p + 1
    requires FindChar(s, ']', NameEnd(FormPart, s, p + 1)) == Some(e)
    ensures MatchAt(FormPart, s, p) == Some(e + 1) <==>
              forall k, q :: 1 <= k <= NameEnd(FormPart, s, p + 1) - p - 1 && e < q ==> !ClosesAt(s, p, k, q)
    ensures MatchAt(FormPart, s, p) != Some(e + 1) ==>
              exists k, q :: 1 <= k && e < q && ClosesAt(s, p, k, q) && MatchAt(FormPart, s, p) == Some(q + k + 3)
  {
    var n := NameEnd(FormPart, s, p + 1) - p - 1;
    FormPartAtBracket(s, p, e);
    PairedCloseNoneIff(s, p, e, n);
    var c := PairedClose(s, p, e, n);
    if c.Some? {
      var k, q := c.value.0, c.value.1;
      assert ClosesAt(s, p, k, q);
      assert MatchAt(FormPart, s, p) == Some(q + k + 3) != Some(e + 1);
    } else {
      assert MatchAt(FormPart, s, p) == Some(e + 1);
    }
  }

  /** PairedClose finds nothing exactly when no leading piece of the name has
      a closing tag after the head. */
  lemma {:induction false} PairedCloseNoneIff(s: string, p: nat, e: nat, n: nat)
    requires p + 1 + n <= e < |s|
    ensures PairedClose(s, p, e, n).None? <==> forall k, q :: 1 <= k <= n && e < q ==> !ClosesAt(s, p, k, q)
  {
    PairedCloseIsFirst(s, p, e, n);
  }

  /** The opening name may give back characters to find its closing tag:
      `[acceptance x]ok[/acc]` is a single part, paired under the name "acc". */
  lemma {:induction false} ShortenedNamePairs()
    ensures MatchAt(FormPart, "[acceptance x]ok[/acc]", 0) == Some(22)
  {
    var s := "[acceptance x]ok[/acc]";
    NoLabelRunAtBracket(s, 0);
    ExampleHead(s);
    ExampleClose(s);
    assert TagAt(FormPart, s, 0) == Some(22);
  }

  lemma {:induction false} ExampleHead(s: string)
    requires s == "[acceptance x]ok[/acc]"
    ensures NameEnd(FormPart, s, 1) == 11 && FindChar(s, ']', 11) == Some(13)
  {
    assert NameEnd(FormPart, s, 11) == 11;
    assert NameEnd(FormPart, s, 10) == 11;
    assert NameEnd(FormPart, s, 9) == 11;
    assert NameEnd(FormPart, s, 8) == 11;
    assert NameEnd(FormPart, s, 7) == 11;
    assert NameEnd(FormPart, s, 6) == 11;
    assert NameEnd(FormPart, s, 5) == 11;
    assert NameEnd(FormPart, s, 4) == 11;
    assert NameEnd(FormPart, s, 3) == 11;
    assert NameEnd(FormPart, s, 2) == 11;
    assert NameEnd(FormPart, s, 1) == 11;
    assert FindChar(s, ']', 13) == Some(13);
    assert FindChar(s, ']', 12) == Some(13);
  }

  lemma {:induction false} ExampleFindClose(s: string)
    requires s == "[acceptance x]ok[/acc]"
    ensures FindClose(s, 0, 3, 14) == Some(16)
    ensures FindClose(s, 0, 4, 14) == None
    ensures FindClose(s, 0, 5, 14) == None
  {
    assert SameName(s, 1, 18, 1) && SameName(s, 1, 18, 2) && SameName(s, 1, 18, 3);
    assert ClosesAt(s, 0, 3, 16);
    assert FindClose(s, 0, 3, 16) == Some(16);
    assert !ClosesAt(s, 0, 3, 15) && !ClosesAt(s, 0, 3, 14);
    assert !ClosesAt(s, 0, 4, 15) && !ClosesAt(s, 0, 4, 14);
    assert !ClosesAt(s, 0, 5, 14);
  }

  /** Closing tags longer than the text after the head cannot be found, so
      those name lengths are passed over. */
  lemma {:induction false} PairedCloseSkipsLong(s: string, p: nat, e: nat, n: nat, j: nat)
    requires p + 1 + n <= e < |s| && j <= n
    requires |s| < e + j + 5
    ensures PairedClose(s, p, e, n) == PairedClose(s, p, e, j)
    decreases n
  {
    if n > j {
      PairedCloseSkipsLong(s, p, e, n - 1, j);
    }
  }

  lemma {:induction false} ExampleClose(s: string)
    requires s == "[acceptance x]ok[/acc]"
    ensures PairedClose(s, 0, 13, 10) == Some((3, 16))
  {
    PairedCloseSkipsLong(s, 0, 13, 10, 5);
    ExampleFindClose(s);
    assert PairedClose(s, 0, 13, 3) == Some((3, 16));
    assert PairedClose(s, 0, 13, 4) == Some((3, 16));
  }
}
