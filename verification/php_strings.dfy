/** String helpers that stand for the PHP built-ins the theme calls.
    A PHP string is a byte string; a `string` here holds one char per byte. */
module PhpStrings {

  datatype Option<+T> = None | Some(value: T)

  /** A byte of a PHP string, kept as the char with that code. */
  type Byte = c: char | c as int < 256

  /** The boolean value of a PHP string: only "" and "0" are false. */
  predicate Truthy(s: string) {
    s != "" && s != "0"
  }

  predicate StartsWith(s: string, prefix: string) {
    |prefix| <= |s| && s[..|prefix|] == prefix
  }

  predicate EndsWith(s: string, suffix: string) {
    |suffix| <= |s| && s[|s| - |suffix|..] == suffix
  }

  predicate OccursAt<T(==)>(haystack: seq<T>, i: int, needle: seq<T>) {
    0 <= i && i + |needle| <= |haystack| && haystack[i..i + |needle|] == needle
  }

  /** str_contains, on any sequence. */
  predicate Contains<T(==)>(haystack: seq<T>, needle: seq<T>) {
    exists i :: 0 <= i <= |haystack| && OccursAt(haystack, i, needle)
  }

  /** The characters trim() strips by default: space, tab, LF, CR, NUL and vertical tab. */
  predicate IsTrimSpace(c: char) {
    c == ' ' || c == '\t' || c == '\n' || c == '\r' || c == '\0' || c == '\U{000B}'
  }

  /** The first position at or after `i` that holds no trim-space. */
  function SpaceEnd(s: string, i: nat): (k: nat)
    requires i <= |s|
    ensures i <= k <= |s|
    ensures k < |s| ==> !IsTrimSpace(s[k])
    ensures forall q :: i <= q < k ==> IsTrimSpace(s[q])
    decreases |s| - i
  {
    if i < |s| && IsTrimSpace(s[i]) then SpaceEnd(s, i + 1) else i
  }

  /** The last position at or before `j` that trim-space alone follows up to `j`. */
  function SpaceStart(s: string, j: nat): (k: nat)
    requires j <= |s|
    ensures k <= j
    ensures k > 0 ==> !IsTrimSpace(s[k - 1])
    ensures forall q :: k <= q < j ==> IsTrimSpace(s[q])
  {
    if j > 0 && IsTrimSpace(s[j - 1]) then SpaceStart(s, j - 1) else j
  }

  /** `r` is `s` from position `i` on with trim-space alone cut off at both sides. */
  predicate TrimsTo(s: string, i: int, r: string) {
    0 <= i <= |s| - |r| && s[i..i + |r|] == r &&
    (forall q :: 0 <= q < i ==> IsTrimSpace(s[q])) &&
    (forall q :: i + |r| <= q < |s| ==> IsTrimSpace(s[q]))
  }

  /** trim($s): strip trim-space from both ends. */
  function Trim(s: string): (r: string)
    ensures |r| <= |s|
    ensures r == [] || (!IsTrimSpace(r[0]) && !IsTrimSpace(r[|r| - 1]))
    ensures (s == [] || (!IsTrimSpace(s[0]) && !IsTrimSpace(s[|s| - 1]))) ==> r == s
  {
    var t := s[SpaceEnd(s, 0)..];
    t[..SpaceStart(t, |t|)]
  }

  /** The result of trim is a middle run of the text, and everything cut off
      on either side is trim-space. */
  lemma {:induction false} TrimIsMiddle(s: string)
    ensures exists i :: TrimsTo(s, i, Trim(s))
  {
    var i := SpaceEnd(s, 0);
    var t := s[i..];
    var j := SpaceStart(t, |t|);
    assert Trim(s) == t[..j];
    assert s[i..i + j] == t[..j];
    assert forall q :: i + j <= q < |s| ==> s[q] == t[q - i];
    assert TrimsTo(s, i, t[..j]);
  }

  /** Trimming only drops characters, so a character absent before is absent after. */
  lemma {:induction false} TrimKeepsAbsent(s: string, c: char)
    requires forall i :: 0 <= i < |s| ==> s[i] != c
    ensures forall i :: 0 <= i < |Trim(s)| ==> Trim(s)[i] != c
  {
    var t := s[SpaceEnd(s, 0)..];
    var k := SpaceEnd(s, 0);
    forall i | 0 <= i < |Trim(s)|
      ensures Trim(s)[i] != c
    {
      assert Trim(s)[i] == t[i] == s[k + i];
    }
  }

  /** rtrim($s, $c): drop every trailing copy of `c`. */
  function TrimEndChar(s: string, c: char): (r: string)
    ensures |r| <= |s| && forall i :: 0 <= i < |r| ==> r[i] == s[i]
    ensures forall i :: |r| <= i < |s| ==> s[i] == c
    ensures r == [] || r[|r| - 1] != c
  {
    if |s| > 0 && s[|s| - 1] == c then TrimEndChar(s[..|s| - 1], c) else s
  }

  /** ASCII case folding, as PCRE's caseless mode does it for single bytes. */
  function Lower(c: char): char {
    if 'A' <= c <= 'Z' then (c as int + 32) as char else c
  }

  /** Two bytes are equal, or equal up to ASCII case. */
  predicate SameChar(a: char, b: char, caseless: bool) {
    if caseless then Lower(a) == Lower(b) else a == b
  }

  /** `pat` occurs in `s` at position `q`, exactly or ignoring ASCII case. */
  predicate MatchesAt(s: string, q: int, pat: string, caseless: bool) {
    0 <= q && q + |pat| <= |s| &&
    forall i :: 0 <= i < |pat| ==> SameChar(s[q + i], pat[i], caseless)
  }

  /** The first position at or after `from` where `pat` occurs (strpos). */
  function Find(s: string, pat: string, from: nat, caseless: bool): (r: Option<nat>)
    ensures r.Some? ==> from <= r.value && MatchesAt(s, r.value, pat, caseless)
    decreases |s| - from
  {
    if from + |pat| > |s| then None
    else if MatchesAt(s, from, pat, caseless) then Some(from)
    else Find(s, pat, from + 1, caseless)
  }

  /** Find returns the first occurrence, and None only when there is none. */
  lemma {:induction false} FindIsFirst(s: string, pat: string, from: nat, caseless: bool)
    ensures Find(s, pat, from, caseless).Some? ==>
      forall q :: from <= q < Find(s, pat, from, caseless).value ==> !MatchesAt(s, q, pat, caseless)
    ensures Find(s, pat, from, caseless).None? ==> forall q :: from <= q ==> !MatchesAt(s, q, pat, caseless)
    decreases |s| - from
  {
    if from + |pat| <= |s| && !MatchesAt(s, from, pat, caseless) {
      FindIsFirst(s, pat, from + 1, caseless);
    }
  }

  /** The first position at or after `from` holding `c`. */
  function FindChar(s: string, c: char, from: nat): (r: Option<nat>)
    ensures r.Some? ==> from <= r.value < |s| && s[r.value] == c
    decreases |s| - from
  {
    if from >= |s| then None
    else if s[from] == c then Some(from)
    else FindChar(s, c, from + 1)
  }

  /** FindChar returns the first occurrence, and None only when there is none. */
  lemma {:induction false} FindCharIsFirst(s: string, c: char, from: nat)
    ensures FindChar(s, c, from).Some? ==> forall q :: from <= q < FindChar(s, c, from).value ==> s[q] != c
    ensures FindChar(s, c, from).None? ==> forall q :: from <= q < |s| ==> s[q] != c
    decreases |s| - from
  {
    if from < |s| && s[from] != c {
      FindCharIsFirst(s, c, from + 1);
    }
  }

  /** A `c` with none before it, from `from` on, is the one FindChar finds. */
  lemma {:induction false} FindCharAt(s: string, c: char, from: nat, i: nat)
    requires from <= i < |s| && s[i] == c
    requires forall q :: from <= q < i ==> s[q] != c
    ensures FindChar(s, c, from) == Some(i)
    decreases i - from
  {
    if from < i {
      FindCharAt(s, c, from + 1, i);
    }
  }

  /** The concatenation of a list of strings (implode("", ...)). */
  function Concat(parts: seq<string>): string {
    if parts == [] then "" else parts[0] + Concat(parts[1..])
  }

  lemma {:induction false} ConcatAppend(a: seq<string>, b: seq<string>)
    ensures Concat(a + b) == Concat(a) + Concat(b)
  {
    if a == [] {
      assert a + b == b;
    } else {
      assert (a + b)[1..] == a[1..] + b;
      ConcatAppend(a[1..], b);
    }
  }

  /** str_replace($needle, "", $haystack): every occurrence, left to right, without overlap. */
  function StrRemove(haystack: string, needle: string): (r: string)
    ensures |r| <= |haystack|
    decreases |haystack|
  {
    if |needle| == 0 || |haystack| < |needle| then haystack
    else if haystack[..|needle|] == needle then StrRemove(haystack[|needle|..], needle)
    else [haystack[0]] + StrRemove(haystack[1..], needle)
  }

  /** Removing a suffix that occurs nowhere earlier leaves exactly the text before it. */
  lemma {:induction false} StrRemoveSuffix(haystack: string, p: nat)
    requires p < |haystack|
    requires forall j :: 0 <= j < p ==> !MatchesAt(haystack, j, haystack[p..], false)
    ensures StrRemove(haystack, haystack[p..]) == haystack[..p]
  {
    var needle := haystack[p..];
    if p == 0 {
      assert haystack[..|needle|] == needle;
      assert StrRemove(haystack[|needle|..], needle) == [];
    } else {
      assert !MatchesAt(haystack, 0, needle, false);
      assert haystack[..|needle|] != needle;
      var tail := haystack[1..];
      assert tail[p - 1..] == needle;
      forall j | 0 <= j < p - 1
        ensures !MatchesAt(tail, j, needle, false)
      {
        assert !MatchesAt(haystack, j + 1, needle, false);
        assert tail[j..j + |needle|] == haystack[j + 1..j + 1 + |needle|];
      }
      StrRemoveSuffix(tail, p - 1);
      assert haystack[..p] == [haystack[0]] + tail[..p - 1];
    }
  }

  /** isspace() in the C locale, which strip_tags consults: space, tab, LF,
      vertical tab, form feed and CR. */
  predicate IsCSpace(c: char) {
    c == ' ' || c == '\t' || c == '\n' || c == '\U{000B}' || c == '\U{000C}' || c == '\r'
  }

  /** Where a tag that opened before `i` ends: the index just after its
      closing `>`, or None when the text ends first. */
  function TagEnd(s: string, i: nat, depth: nat, quote: Option<char>): (r: Option<nat>)
    ensures r.Some? ==> i < r.value <= |s| && s[r.value - 1] == '>'
    decreases |s| - i
  {
    if i >= |s| then None
    else if s[i] == '>' && depth == 0 && quote.None? then Some(i + 1)
    else
      var (d, q) := InTag(s, i, depth, quote);
      TagEnd(s, i + 1, d, q)
  }

  /** The nesting depth and the open quote after s[i] inside a tag. A `<`
      that is not followed by whitespace opens a nested level and a `>`
      closes one; a quote (`"` or `'`) hides every `<` and `>` up to the
      matching quote, except that a `>` still closes a nested level. */
  function InTag(s: string, i: nat, depth: nat, quote: Option<char>): (nat, Option<char>)
    requires i < |s|
  {
    var c := s[i];
    if c == '<' && quote.None? && !(i + 1 < |s| && IsCSpace(s[i + 1])) then (depth + 1, quote)
    else if c == '>' && depth > 0 then (depth - 1, quote)
    else if (c == '"' || c == '\'') && quote.None? then (depth, Some(c))
    else if quote == Some(c) then (depth, None)
    else (depth, quote)
  }

  /** strip_tags($s) with no allowed tags: StripHead, over and over. */
  function StripTags(s: string): (r: string)
    ensures |r| <= |s|
    decreases |s|
  {
    if s == [] then []
    else
      var (kept, next) := StripHead(s);
      kept + StripTags(s[next..])
  }

  /** What strip_tags keeps of the start of `s`, and where it goes on.
      Outside a tag every character is kept except NUL. A `<` followed by
      whitespace is an ordinary character; any other `<` opens a tag, which
      is dropped up to the end TagEnd finds, and a tag that never ends
      drops the rest of the text. */
  function StripHead(s: string): (r: (string, nat))
    requires s != []
    ensures 0 < r.1 <= |s| && |r.0| <= r.1
  {
    if s[0] == '\0' then ([], 1)
    else if s[0] == '<' && !(|s| > 1 && IsCSpace(s[1])) then
      match TagEnd(s, 1, 0, None)
      case Some(e) => ([], e)
      case None => ([], |s|)
    else ([s[0]], 1)
  }

  /** Text in which no tag opens before its end: no NUL, and every `<` that
      has a next character has whitespace there. */
  predicate NoTagOpens(s: string) {
    (forall i :: 0 <= i < |s| ==> s[i] != '\0') &&
    (forall i, j :: 0 <= i < |s| && 0 <= j < |s| && j == i + 1 && s[i] == '<' ==> IsCSpace(s[j]))
  }

  /** Text in which strip_tags finds nothing to remove: no tag opens, and
      the text does not end in `<`. */
  predicate PlainText(s: string) {
    NoTagOpens(s) && (|s| > 0 ==> s[|s| - 1] != '<')
  }

  /** strip_tags leaves plain text, and it changes a text exactly when the
      text is not plain. */
  lemma {:induction false} StripTagsPlain(s: string)
    ensures PlainText(StripTags(s))
    ensures StripTags(s) == s <==> PlainText(s)
  {
    StripTagsMakesPlain(s);
    if PlainText(s) {
      PlainUnchanged(s);
    }
  }

  lemma {:induction false} StripTagsMakesPlain(s: string)
    ensures PlainText(StripTags(s))
    decreases |s|
  {
    if s != [] {
      var (kept, next) := StripHead(s);
      var rest := StripTags(s[next..]);
      StripTagsMakesPlain(s[next..]);
      if kept == [] {
        assert StripTags(s) == rest;
      } else {
        assert kept == [s[0]] && next == 1;
        if s[0] == '<' {
          var t := s[1..];
          assert StripHead(t) == ([t[0]], 1);
          assert rest == [s[1]] + StripTags(t[1..]);
        }
        PlainCons(s[0], rest);
      }
    }
  }

  lemma {:induction false} PlainCons(c: char, r: string)
    requires c != '\0' && PlainText(r)
    requires c == '<' ==> |r| > 0 && IsCSpace(r[0])
    ensures PlainText([c] + r)
  {
    forall q | 0 <= q < |r| ensures ([c] + r)[q + 1] == r[q] { }
  }

  lemma {:induction false} PlainUnchanged(s: string)
    requires PlainText(s)
    ensures StripTags(s) == s
    decreases |s|
  {
    if s != [] {
      var t := s[1..];
      forall q | 0 <= q < |t|
        ensures t[q] != '\0' && (t[q] == '<' ==> q + 1 < |t| && IsCSpace(t[q + 1]))
      {
        assert t[q] == s[q + 1];
        if q + 1 < |t| { assert t[q + 1] == s[q + 2]; }
      }
      PlainUnchanged(t);
      assert s[0] != '\0' && (s[0] == '<' ==> 1 < |s| && IsCSpace(s[1]));
      assert StripHead(s) == ([s[0]], 1);
      assert s == [s[0]] + t;
    }
  }

  /** A `<` followed by whitespace survives strip_tags, as in "Age < 18". */
  lemma {:induction false} StripTagsKeepsSpacedOpen(c: char, t: string)
    requires IsCSpace(c)
    ensures StripTags(['<', c] + t) == ['<', c] + StripTags(t)
  {
    var s, u := ['<', c] + t, [c] + t;
    assert s[0] == '<' && s[1] == c && s[1..] == u;
    assert StripHead(s) == (['<'], 1);
    assert u[0] == c && u[1..] == t;
    assert StripHead(u) == ([c], 1);
    var x := StripTags(t);
    assert StripTags(s) == ['<'] + ([c] + x);
    assert ['<'] + ([c] + x) == ['<', c] + x;
  }

  /** A `>` inside a tag closes a nested `<` first, so the tag of
      "<a<b>c>d" runs to its second `>`. */
  lemma StripTagsNested()
    ensures StripTags("<a<b>c>d") == "d"
  {
    var s := "<a<b>c>d";
    assert TagEnd(s, 1, 0, None) == Some(7);
    assert StripHead(s) == ([], 7);
    assert s[7..] == "d";
    assert StripHead("d") == ("d", 1);
    assert "d"[1..] == [];
  }

  /** Ordinary text with a spaced `<` comes back whole. */
  lemma StripTagsSpacedText()
    ensures StripTags("Age < 18") == "Age < 18"
  {
    var s := "Age < 18";
    forall i | 0 <= i < |s| ensures s[i] != '\0' { }
    PlainUnchanged(s);
  }

  /** trim keeps text free of tag openings. */
  lemma {:induction false} TrimKeepsNoTagOpens(s: string)
    requires NoTagOpens(s)
    ensures NoTagOpens(Trim(s))
  {
    TrimIsMiddle(s);
    var r := Trim(s);
    var i :| TrimsTo(s, i, r);
    forall q | 0 <= q < |r| ensures r[q] == s[i + q] {
      assert r[q] == s[i..i + |r|][q];
    }
  }
}
