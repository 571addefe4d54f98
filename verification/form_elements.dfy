/** parse_form_elements (inc/forms.php): a left-to-right pass over the form
    markup cut at its `[...]` tags. Text between tags collects in a buffer;
    at each tag the buffer is flushed as a text block (or as the text before a
    `<label>` plus the label itself), and the next scanned tag becomes a field. */
module FormElements {
  import opened PhpStrings
  import opened FormPatterns
  import opened TagOptions

  /** One record of the result: a `text_block` or a `field`. */
  datatype Element =
    | TextBlock(content: string)
    | Field(tagType: string, name: string, labelText: Option<string>, required: bool,
            markupSource: string, extra: FieldOptions)

  /** The loop's state: the records so far, the text buffer, the position in
      the tag list and the label that carries over to the next field. */
  datatype Scan = Scan(elements: seq<Element>, buffer: string, tagIndex: nat, labelText: Option<string>)

  const Start := Scan([], "", 0, None)

  /** preg_split('/(\[[\w*]+[^\]]*\])/', $markup, -1, DELIM_CAPTURE | NO_EMPTY). */
  function SplitOnTags(markup: string): (r: seq<string>)
    ensures Concat(r) == markup
    ensures forall i :: 0 <= i < |r| ==> r[i] != ""
  {
    SegmentsCover(MatcherOf(TagDelimiter, markup), markup, 0);
    Segments(MatcherOf(TagDelimiter, markup), markup, 0)
  }

  predicate IsBracketed(part: string) {
    StartsWith(part, "[") && EndsWith(part, "]")
  }

  /** The characters PCRE's `\s` matches: space, tab, LF, VT, FF and CR. */
  predicate IsPcreSpace(c: char) {
    c == ' ' || c == '\t' || c == '\n' || c == '\U{000B}' || c == '\U{000C}' || c == '\r'
  }

  predicate AllPcreSpace(s: string) {
    forall i :: 0 <= i < |s| ==> IsPcreSpace(s[i])
  }

  /** The length of the `</label>`, `</p>` or `</div>` written at `p`, or 0. */
  function ClosingTagLength(s: string, p: nat): (n: nat)
    ensures n == 0 || p + n <= |s|
  {
    if OccursAt(s, p, "</label>") then 8
    else if OccursAt(s, p, "</p>") then 4
    else if OccursAt(s, p, "</div>") then 6
    else 0
  }

  /** At `p` a closing tag starts that only whitespace follows. */
  predicate ClosingTailAt(s: string, p: nat) {
    var n := ClosingTagLength(s, p);
    n > 0 && AllPcreSpace(s[p + n..])
  }

  /** Where the run of `\s` characters that ends at `j` begins. */
  function SpaceRunStart(s: string, j: nat): (k: nat)
    requires j <= |s|
    ensures k <= j
    ensures k > 0 ==> !IsPcreSpace(s[k - 1])
    ensures forall i :: k <= i < j ==> IsPcreSpace(s[i])
  {
    if j > 0 && IsPcreSpace(s[j - 1]) then SpaceRunStart(s, j - 1) else j
  }

  /** The length of the `</label>`, `</p>` or `</div>` that `t` ends with, or 0. */
  function ClosingTagSuffix(t: string): nat {
    if EndsWith(t, "</label>") then 8
    else if EndsWith(t, "</p>") then 4
    else if EndsWith(t, "</div>") then 6
    else 0
  }

  /** preg_replace('/<\/(label|p|div)>\s*$/', "", $s): a closing tag followed
      by nothing but whitespace is cut off, with that whitespace. Since `>` is
      not whitespace, such a tag can only end where the trailing whitespace
      begins, so at most one tag goes: "a</p></div>" becomes "a</p>". */
  function StripClosingTag(s: string): (r: string)
    ensures |r| <= |s| && forall i :: 0 <= i < |r| ==> r[i] == s[i]
  {
    var t := s[..SpaceRunStart(s, |s|)];
    var n := ClosingTagSuffix(t);
    if n > 0 then t[..|t| - n] else s
  }

  /** A run of `\s` from `p` to `j` lies inside the run SpaceRunStart finds. */
  lemma {:induction false} SpaceRunCovers(s: string, p: nat, j: nat)
    requires p <= j <= |s|
    requires forall i :: p <= i < j ==> IsPcreSpace(s[i])
    ensures SpaceRunStart(s, j) <= p
    decreases j
  {
    if p < j {
      SpaceRunCovers(s, p, j - 1);
    }
  }

  /** A closing tag that only whitespace follows ends exactly where the
      trailing whitespace begins. */
  lemma {:induction false} ClosingTailEndsTrimmed(s: string, q: nat)
    requires ClosingTailAt(s, q)
    ensures var k := SpaceRunStart(s, |s|);
      q + ClosingTagLength(s, q) == k && ClosingTagSuffix(s[..k]) == ClosingTagLength(s, q)
  {
    var n := ClosingTagLength(s, q);
    ClosingTagShape(s, q);
    SpacesAfter(s, q + n);
    assert !IsPcreSpace(s[q + n - 1]);
  }

  /** The closing tag at `q` ends with `>`, and the text up to its end has it as suffix. */
  lemma {:induction false} ClosingTagShape(s: string, q: nat)
    requires ClosingTagLength(s, q) > 0
    ensures var n := ClosingTagLength(s, q);
      s[q + n - 1] == '>' && ClosingTagSuffix(s[..q + n]) == n
  {
    var n := ClosingTagLength(s, q);
    var tag := if n == 8 then "</label>" else if n == 4 then "</p>" else "</div>";
    assert s[q..q + n] == tag;
    assert s[q + n - 1] == tag[n - 1];
    assert s[..q + n][q..] == tag;
    ClosingTagSuffixAt(s[..q + n], tag);
  }

  /** Whitespace from `p` to the end: the trailing run starts at `p` or before. */
  lemma {:induction false} SpacesAfter(s: string, p: nat)
    requires p <= |s| && AllPcreSpace(s[p..])
    ensures SpaceRunStart(s, |s|) <= p
  {
    forall i | p <= i < |s|
      ensures IsPcreSpace(s[i])
    {
      assert s[p..][i - p] == s[i];
    }
    SpaceRunCovers(s, p, |s|);
  }

  /** A text that ends with one of the three closing tags has that tag's length as its suffix length. */
  lemma {:induction false} ClosingTagSuffixAt(t: string, tag: string)
    requires tag == "</label>" || tag == "</p>" || tag == "</div>"
    requires EndsWith(t, tag)
    ensures ClosingTagSuffix(t) == |tag|
  {
    var n := |tag|;
    assert t[|t| - 2] == t[|t| - n..][n - 2] == tag[n - 2];
    if n != 8 {
      assert !EndsWith(t, "</label>") by {
        if |t| >= 8 { assert t[|t| - 8..][6] == t[|t| - 2]; }
      }
    }
    if n == 6 {
      assert !EndsWith(t, "</p>") by { assert t[|t| - 4..][2] == t[|t| - 2]; }
    }
  }

  /** What StripClosingTag cuts: nothing when no closing tag is followed by
      whitespace only; otherwise exactly from the leftmost such tag, as the
      leftmost-match search of preg_replace does. */
  lemma {:induction false} StripClosingTagCuts(s: string)
    ensures var r := StripClosingTag(s);
      (r == s <==> forall p :: 0 <= p < |s| ==> !ClosingTailAt(s, p)) &&
      (r != s ==> ClosingTailAt(s, |r|) && forall p :: 0 <= p < |r| ==> !ClosingTailAt(s, p))
  {
    var k := SpaceRunStart(s, |s|);
    var n := ClosingTagSuffix(s[..k]);
    if n > 0 {
      SuffixIsClosingTail(s);
      forall q | 0 <= q < k - n
        ensures !ClosingTailAt(s, q)
      {
        if ClosingTailAt(s, q) {
          ClosingTailEndsTrimmed(s, q);
        }
      }
    } else {
      forall q | 0 <= q < |s|
        ensures !ClosingTailAt(s, q)
      {
        if ClosingTailAt(s, q) {
          ClosingTailEndsTrimmed(s, q);
        }
      }
    }
  }

  /** The closing tag the trimmed text ends with is one that only whitespace follows. */
  lemma {:induction false} SuffixIsClosingTail(s: string)
    requires ClosingTagSuffix(s[..SpaceRunStart(s, |s|)]) > 0
    ensures var k := SpaceRunStart(s, |s|);
      ClosingTailAt(s, k - ClosingTagSuffix(s[..k]))
  {
    var k := SpaceRunStart(s, |s|);
    var t := s[..k];
    var n := ClosingTagSuffix(t);
    var p := k - n;
    var tag := if n == 8 then "</label>" else if n == 4 then "</p>" else "</div>";
    assert t[p..] == tag;
    assert s[p..p + n] == tag;
    ClosingTagLengthOf(s, p, tag);
    forall i | 0 <= i < |s[k..]|
      ensures IsPcreSpace(s[k..][i])
    {
      assert s[k..][i] == s[k + i];
    }
  }

  /** The three closing tags do not overlap as prefixes after their first two characters. */
  lemma {:induction false} ClosingTagLengthOf(s: string, p: nat, tag: string)
    requires tag == "</label>" || tag == "</p>" || tag == "</div>"
    requires OccursAt(s, p, tag)
    ensures ClosingTagLength(s, p) == |tag|
  {
    var n := |tag|;
    assert s[p + 2] == s[p..p + n][2] == tag[2];
    if n != 8 {
      assert !OccursAt(s, p, "</label>") by {
        if p + 8 <= |s| { assert s[p..p + 8][2] == s[p + 2]; }
      }
    }
    if n == 6 {
      assert !OccursAt(s, p, "</p>") by { assert s[p..p + 4][2] == s[p + 2]; }
    }
  }

  /** preg_match('/<label[^>]*>(.*)$/is'): the position `p` of the `<label`
      and the position `g` of the `>` that ends it. The whole match is the text
      from `p` on; the captured group is the text after `g`. */
  function LabelOpen(s: string): (r: Option<(nat, nat)>)
    ensures r.Some? ==> r.value.0 + 6 <= r.value.1 < |s|
  {
    match Find(s, "<label", 0, true)
    case None => None
    case Some(p) =>
      match FindChar(s, '>', p + 6)
      case None => None
      case Some(g) => Some((p, g))
  }

  /** LabelOpen finds what PCRE finds: the leftmost `<label` in any case and
      the first `>` after it; when it finds nothing, no `<label` has a `>`
      anywhere after it. */
  lemma {:induction false} LabelOpenIsLeftmost(s: string)
    ensures LabelOpen(s).Some? ==>
      var (p, g) := LabelOpen(s).value;
      MatchesAt(s, p, "<label", true) && s[g] == '>' &&
      (forall q :: 0 <= q < p ==> !MatchesAt(s, q, "<label", true)) &&
      (forall q :: p + 6 <= q < g ==> s[q] != '>')
    ensures LabelOpen(s).None? ==>
      forall q, j :: 0 <= q && q + 6 <= j < |s| && MatchesAt(s, q, "<label", true) ==> s[j] != '>'
  {
    FindIsFirst(s, "<label", 0, true);
    match Find(s, "<label", 0, true)
    case None =>
    case Some(p) =>
      FindCharIsFirst(s, '>', p + 6);
  }

  /** Removing the whole `<label...` match with str_replace leaves exactly the
      text before it: the match cannot occur earlier, since it would bring a
      `<label` with it. */
  lemma {:induction false} LabelMatchRemoval(s: string)
    requires LabelOpen(s).Some?
    ensures var p := LabelOpen(s).value.0; StrRemove(s, s[p..]) == s[..p]
  {
    LabelOpenIsLeftmost(s);
    var p := LabelOpen(s).value.0;
    var m := s[p..];
    forall j | 0 <= j < p
      ensures !MatchesAt(s, j, m, false)
    {
      if MatchesAt(s, j, m, false) {
        forall i | 0 <= i < 6
          ensures SameChar(s[j + i], "<label"[i], true)
        {
          assert SameChar(s[j + i], m[i], false) && m[i] == s[p + i];
          assert SameChar(s[p + i], "<label"[i], true);
        }
        assert MatchesAt(s, j, "<label", true);
      }
    }
    StrRemoveSuffix(s, p);
  }

  /** The block a text makes: one `text_block` when the text is truthy, none otherwise. */
  function BlockOf(text: string): seq<Element> {
    if Truthy(text) then [TextBlock(text)] else []
  }

  /** The flush of a non-empty buffer at a tag, given the buffer with its
      closing tag removed: the text blocks it emits and the label it sets. A
      `<label` splits it into the text before (a block when non-empty) and the
      tag-stripped text after the `>` (the label); without one the whole text
      is a block and the label is null. */
  function Flush(clean: string): (seq<Element>, Option<string>) {
    var open := LabelOpen(clean);
    if open.None? then (BlockOf(clean), None)
    else (BlockOf(Trim(clean[..open.value.0])), Some(Trim(StripTags(clean[open.value.1 + 1..]))))
  }

  predicate IsSkipped(tag: FormTag) {
    tag.rawType in ["hidden", "response", "submit"]
  }

  /** The field record of a tag written as `part` (already trimmed). */
  function FieldOf(tag: FormTag, labelText: Option<string>, part: string): Element {
    var kind := TrimEndChar(tag.rawType, '*');
    Field(kind, tag.name, labelText, tag.required, part, TagOptionsOf(kind, tag.options, tag.values, part))
  }

  /** At a bracketed part a truthy buffer is flushed and emptied; a falsy one
      ("" or "0") stays, and so does the label from before. */
  function FlushAt(st: Scan): (r: Scan)
    ensures r.tagIndex == st.tagIndex
  {
    if Truthy(st.buffer) then
      var (blocks, labelText) := Flush(StripClosingTag(st.buffer));
      Scan(st.elements + blocks, "", st.tagIndex, labelText)
    else st
  }

  /** At a bracketed part the next tag, if any, is used up; unless it is a
      hidden, response or submit tag it becomes a field with the current label. */
  function TakeTag(tags: seq<FormTag>, st: Scan, part: string): (r: Scan)
    ensures r.tagIndex == if st.tagIndex < |tags| then st.tagIndex + 1 else st.tagIndex
    ensures r.buffer == st.buffer && r.labelText == st.labelText
  {
    if st.tagIndex < |tags| then
      var tag := tags[st.tagIndex];
      if IsSkipped(tag) then st.(tagIndex := st.tagIndex + 1)
      else st.(elements := st.elements + [FieldOf(tag, st.labelText, part)], tagIndex := st.tagIndex + 1)
    else st
  }

  /** One turn of the loop, on the piece `piece` of the split markup. */
  function Step(tags: seq<FormTag>, st: Scan, piece: string): (r: Scan)
    ensures st.tagIndex <= r.tagIndex <= st.tagIndex + 1
  {
    var part := Trim(piece);
    if IsBracketed(part) then TakeTag(tags, FlushAt(st), part)
    else st.(buffer := st.buffer + part)
  }

  /** The state after the loop has seen the first `n` pieces. */
  function Run(tags: seq<FormTag>, pieces: seq<string>, n: nat): Scan
    requires n <= |pieces|
  {
    if n == 0 then Start else Step(tags, Run(tags, pieces, n - 1), pieces[n - 1])
  }

  /** After the loop: what is left in the buffer, closing tag removed, is the last block. */
  function Finish(st: Scan): (r: seq<Element>)
    ensures |st.elements| <= |r| <= |st.elements| + 1 && r[..|st.elements|] == st.elements
  {
    if Truthy(st.buffer) then
      var final := StripClosingTag(st.buffer);
      if Truthy(final) then st.elements + [TextBlock(final)] else st.elements
    else st.elements
  }

  /** The records parse_form_elements returns for `markup` and its scanned `tags`. */
  function FormElements(markup: string, tags: seq<FormTag>): seq<Element> {
    var pieces := SplitOnTags(markup);
    Finish(Run(tags, pieces, |pieces|))
  }

  /** trim(str_replace($matches[0], "", $clean_buf)): the trimmed text
      before the `<label`, since the whole match occurs nowhere else. */
  method TextBeforeLabel(clean: string) returns (pre: string)
    requires LabelOpen(clean).Some?
    ensures pre == Trim(clean[..LabelOpen(clean).value.0])
  {
    var p := LabelOpen(clean).value.0;
    LabelMatchRemoval(clean);
    pre := Trim(StrRemove(clean, clean[p..]));
  }

  /** The flush at a tag, as the source writes it, on the buffer with its
      closing tag already cut off. */
  method FlushBuffer(cleanBuf: string) returns (blocks: seq<Element>, labelText: Option<string>)
    ensures blocks == Flush(cleanBuf).0
    ensures labelText == Flush(cleanBuf).1
  {
    blocks := [];
    labelText := None;
    var open := LabelOpen(cleanBuf);
    if open.Some? {
      var p, g := open.value.0, open.value.1;
      var preText := TextBeforeLabel(cleanBuf);
      if Truthy(preText) {
        blocks := [TextBlock(preText)];
      }
      assert blocks == BlockOf(preText);
      labelText := Some(Trim(StripTags(cleanBuf[g + 1..])));
    } else {
      if Truthy(cleanBuf) {
        blocks := [TextBlock(cleanBuf)];
      }
      assert blocks == BlockOf(cleanBuf);
    }
  }

  /** The foreach of parse_form_elements over the split markup, with the
      records, the buffer, the tag position and the label as its state. */
  method ScanParts(tags: seq<FormTag>, parts: seq<string>) returns (st: Scan)
    ensures st == Run(tags, parts, |parts|)
  {
    var elements: seq<Element> := [];
    var buffer := "";
    var tagIndex: nat := 0;
    var labelText: Option<string> := None;
    var i := 0;
    while i < |parts|
      invariant 0 <= i <= |parts|
      invariant Scan(elements, buffer, tagIndex, labelText) == Run(tags, parts, i)
    {
      ghost var before := Scan(elements, buffer, tagIndex, labelText);
      var part := Trim(parts[i]);
      if IsBracketed(part) {
        if Truthy(buffer) {
          var blocks, newLabel := FlushBuffer(StripClosingTag(buffer));
          elements, buffer, labelText := elements + blocks, "", newLabel;
        }
        ghost var flushed := Scan(elements, buffer, tagIndex, labelText);
        Flushed(before, flushed);
        if tagIndex < |tags| {
          var tag := tags[tagIndex];
          if !IsSkipped(tag) {
            elements := elements + [FieldOf(tag, labelText, part)];
          }
          tagIndex := tagIndex + 1;
        }
        TagTaken(tags, flushed, part, Scan(elements, buffer, tagIndex, labelText));
      } else {
        buffer := buffer + part;
      }
      Stepped(tags, before, parts[i], Scan(elements, buffer, tagIndex, labelText));
      RunNext(tags, parts, i);
      i := i + 1;
    }
    st := Scan(elements, buffer, tagIndex, labelText);
  }

  /** A state that agrees with the flush field by field is the flushed state. */
  lemma {:induction false} Flushed(st: Scan, r: Scan)
    requires Truthy(st.buffer) ==> r == Scan(st.elements + Flush(StripClosingTag(st.buffer)).0, "", st.tagIndex, Flush(StripClosingTag(st.buffer)).1)
    requires !Truthy(st.buffer) ==> r == st
    ensures r == FlushAt(st)
  {
  }

  /** A state that agrees with the use of the next tag field by field is that state. */
  lemma {:induction false} TagTaken(tags: seq<FormTag>, st: Scan, part: string, r: Scan)
    requires r.buffer == st.buffer && r.labelText == st.labelText
    requires st.tagIndex < |tags| ==> r.tagIndex == st.tagIndex + 1
    requires st.tagIndex >= |tags| ==> r.tagIndex == st.tagIndex && r.elements == st.elements
    requires st.tagIndex < |tags| && IsSkipped(tags[st.tagIndex]) ==> r.elements == st.elements
    requires st.tagIndex < |tags| && !IsSkipped(tags[st.tagIndex]) ==> r.elements == st.elements + [FieldOf(tags[st.tagIndex], st.labelText, part)]
    ensures r == TakeTag(tags, st, part)
  {
  }

  /** A state that agrees with either branch of the step is the stepped state. */
  lemma {:induction false} Stepped(tags: seq<FormTag>, st: Scan, piece: string, r: Scan)
    requires IsBracketed(Trim(piece)) ==> r == TakeTag(tags, FlushAt(st), Trim(piece))
    requires !IsBracketed(Trim(piece)) ==> r == st.(buffer := st.buffer + Trim(piece))
    ensures r == Step(tags, st, piece)
  {
  }

  /** The state after one more piece. */
  lemma {:induction false} RunNext(tags: seq<FormTag>, parts: seq<string>, i: nat)
    requires i < |parts|
    ensures Run(tags, parts, i + 1) == Step(tags, Run(tags, parts, i), parts[i])
  {
  }

  /** parse_form_elements: the markup split at its tags, the loop over the
      parts, then the final flush of the buffer. */
  method ParseFormElements(markup: string, tags: seq<FormTag>) returns (elements: seq<Element>)
    ensures elements == FormElements(markup, tags)
  {
    var parts := SplitOnTags(markup);
    var st := ScanParts(tags, parts);
    elements := st.elements;
    if Truthy(st.buffer) {
      var finalText := StripClosingTag(st.buffer);
      if Truthy(finalText) {
        elements := elements + [TextBlock(finalText)];
      }
    }
  }

  // Properties of the pass.

  function Min(a: int, b: int): int {
    if a <= b then a else b
  }

  /** How many of the first `n` pieces are bracketed once trimmed. */
  function BracketCount(pieces: seq<string>, n: nat): nat
    requires n <= |pieces|
  {
    if n == 0 then 0
    else BracketCount(pieces, n - 1) + (if IsBracketed(Trim(pieces[n - 1])) then 1 else 0)
  }

  /** What a field keeps of its tag: the type without `*`, the name and the required flag. */
  datatype Origin = Origin(tagType: string, name: string, required: bool)

  function FieldOrigins(els: seq<Element>): seq<Origin> {
    if els == [] then []
    else
      var e := els[|els| - 1];
      FieldOrigins(els[..|els| - 1]) + (if e.Field? then [Origin(e.tagType, e.name, e.required)] else [])
  }

  /** The tags that make fields, in order: all but hidden, response and submit. */
  function TagOrigins(tags: seq<FormTag>): (r: seq<Origin>)
    ensures |r| <= |tags|
  {
    if tags == [] then []
    else
      var t := tags[|tags| - 1];
      TagOrigins(tags[..|tags| - 1]) +
        (if IsSkipped(t) then [] else [Origin(TrimEndChar(t.rawType, '*'), t.name, t.required)])
  }

  lemma {:induction false} FieldOriginsAppend(a: seq<Element>, b: seq<Element>)
    ensures FieldOrigins(a + b) == FieldOrigins(a) + FieldOrigins(b)
  {
    if b == [] {
      assert a + b == a;
    } else {
      assert (a + b)[..|a + b| - 1] == a + b[..|b| - 1];
      FieldOriginsAppend(a, b[..|b| - 1]);
    }
  }

  lemma {:induction false} FlushHasNoFields(clean: string)
    ensures FieldOrigins(Flush(clean).0) == []
  {
    var blocks := Flush(clean).0;
    if blocks != [] {
      assert blocks[..0] == [];
    }
  }

  /** A flush adds text blocks only, never a field. */
  lemma {:induction false} FlushAtKeepsOrigins(st: Scan)
    ensures FieldOrigins(FlushAt(st).elements) == FieldOrigins(st.elements)
  {
    if Truthy(st.buffer) {
      var blocks := Flush(StripClosingTag(st.buffer)).0;
      FlushHasNoFields(StripClosingTag(st.buffer));
      FieldOriginsAppend(st.elements, blocks);
    }
  }

  /** Taking a tag uses the next one and adds its field unless it is skipped. */
  lemma {:induction false} TakeTagUsesNext(tags: seq<FormTag>, st: Scan, part: string)
    requires st.tagIndex <= |tags|
    requires FieldOrigins(st.elements) == TagOrigins(tags[..st.tagIndex])
    ensures var r := TakeTag(tags, st, part);
      r.tagIndex == Min(|tags|, st.tagIndex + 1) &&
      FieldOrigins(r.elements) == TagOrigins(tags[..r.tagIndex])
  {
    if st.tagIndex < |tags| {
      var k := st.tagIndex;
      assert tags[..k + 1][..k] == tags[..k];
      var r := TakeTag(tags, st, part);
      if !IsSkipped(tags[k]) {
        assert r.elements[..|r.elements| - 1] == st.elements;
      }
    }
  }

  /** One step keeps the fields equal to the used tags. */
  lemma {:induction false} StepUsesTagsInOrder(tags: seq<FormTag>, st: Scan, piece: string)
    requires st.tagIndex <= |tags|
    requires FieldOrigins(st.elements) == TagOrigins(tags[..st.tagIndex])
    ensures var r := Step(tags, st, piece);
      r.tagIndex == (if IsBracketed(Trim(piece)) then Min(|tags|, st.tagIndex + 1) else st.tagIndex) &&
      FieldOrigins(r.elements) == TagOrigins(tags[..r.tagIndex])
  {
    var part := Trim(piece);
    if IsBracketed(part) {
      FlushAtKeepsOrigins(st);
      TakeTagUsesNext(tags, FlushAt(st), part);
    }
  }

  /** Tags are used strictly in order, one per bracketed part while they last,
      and the fields are exactly the used tags minus the hidden, response and
      submit ones, in the same order. */
  lemma {:induction false} RunUsesTagsInOrder(tags: seq<FormTag>, pieces: seq<string>, n: nat)
    requires n <= |pieces|
    ensures Run(tags, pieces, n).tagIndex == Min(|tags|, BracketCount(pieces, n))
    ensures FieldOrigins(Run(tags, pieces, n).elements) == TagOrigins(tags[..Run(tags, pieces, n).tagIndex])
  {
    if n > 0 {
      RunUsesTagsInOrder(tags, pieces, n - 1);
      StepUsesTagsInOrder(tags, Run(tags, pieces, n - 1), pieces[n - 1]);
    }
  }

  /** Every field stands for a tag: the fields of the result come from the
      first min(|tags|, bracketed parts) tags, skipping hidden, response and
      submit ones, so there are never more fields than tags or bracketed parts. */
  lemma {:induction false} FieldsFollowTags(markup: string, tags: seq<FormTag>)
    ensures var pieces := SplitOnTags(markup);
      var k := Min(|tags|, BracketCount(pieces, |pieces|));
      FieldOrigins(FormElements(markup, tags)) == TagOrigins(tags[..k]) &&
      |FieldOrigins(FormElements(markup, tags))| <= |tags| &&
      |FieldOrigins(FormElements(markup, tags))| <= BracketCount(pieces, |pieces|)
  {
    var pieces := SplitOnTags(markup);
    RunUsesTagsInOrder(tags, pieces, |pieces|);
    var st := Run(tags, pieces, |pieces|);
    FinishKeepsOrigins(st);
    var k := Min(|tags|, BracketCount(pieces, |pieces|));
    assert FieldOrigins(FormElements(markup, tags)) == TagOrigins(tags[..k]);
    assert |tags[..k]| == k;
  }

  /** The last block the final flush adds is text, not a field. */
  lemma {:induction false} FinishKeepsOrigins(st: Scan)
    ensures FieldOrigins(Finish(st)) == FieldOrigins(st.elements)
  {
    if Truthy(st.buffer) && Truthy(StripClosingTag(st.buffer)) {
      var b := TextBlock(StripClosingTag(st.buffer));
      FieldOriginsAppend(st.elements, [b]);
      assert [b][..0] == [];
    }
  }

  /** A flush sets a label exactly when the buffer opens a `<label`: the label
      is the trimmed, tag-free text after the `>` of that opening, and the block
      before it is the trimmed text before `<label`; without one the whole
      buffer is the block and the label is cleared. */
  lemma {:induction false} FlushSetsLabel(clean: string)
    ensures Flush(clean).1.None? <==> LabelOpen(clean).None?
    ensures LabelOpen(clean).None? ==> Flush(clean).0 == BlockOf(clean)
    ensures LabelOpen(clean).Some? ==>
      var (p, g) := LabelOpen(clean).value;
      Flush(clean).0 == BlockOf(Trim(clean[..p])) && Flush(clean).1 == Some(Trim(StripTags(clean[g + 1..])))
    ensures |Flush(clean).0| <= 1 && forall i :: 0 <= i < |Flush(clean).0| ==> Flush(clean).0[i].TextBlock?
  {
  }

  /** At a bracketed part a truthy buffer becomes blocks and the label of its
      flush, and is emptied; a falsy one changes nothing. */
  lemma {:induction false} FlushAtEffect(st: Scan)
    ensures Truthy(st.buffer) ==>
      FlushAt(st) == Scan(st.elements + Flush(StripClosingTag(st.buffer)).0, "", st.tagIndex, Flush(StripClosingTag(st.buffer)).1)
    ensures !Truthy(st.buffer) ==> FlushAt(st) == st
  {
  }

  /** Using the next tag adds at most one record, the field of that tag with the
      current label, and only when there is a next tag and it is not hidden,
      response or submit. */
  lemma {:induction false} TakeTagEffect(tags: seq<FormTag>, st: Scan, part: string)
    ensures var r := TakeTag(tags, st, part);
      |st.elements| <= |r.elements| <= |st.elements| + 1 && r.elements[..|st.elements|] == st.elements &&
      (|r.elements| == |st.elements| + 1 <==> st.tagIndex < |tags| && !IsSkipped(tags[st.tagIndex]))
    ensures var r := TakeTag(tags, st, part);
      |r.elements| == |st.elements| + 1 ==> r.elements[|st.elements|] == FieldOf(tags[st.tagIndex], st.labelText, part)
  {
    var r := TakeTag(tags, st, part);
    if st.tagIndex < |tags| && !IsSkipped(tags[st.tagIndex]) {
      assert r.elements == st.elements + [FieldOf(tags[st.tagIndex], st.labelText, part)];
    }
  }

  /** A bracketed part whose tag makes a field ends the records with that field,
      labelled by the flush of a truthy buffer, or else by the label from before;
      the buffer is then empty unless it was falsy. */
  lemma {:induction false} StepAddsField(tags: seq<FormTag>, st: Scan, piece: string)
    requires IsBracketed(Trim(piece))
    requires st.tagIndex < |tags| && !IsSkipped(tags[st.tagIndex])
    ensures var r := Step(tags, st, piece);
      var labelText := if Truthy(st.buffer) then Flush(StripClosingTag(st.buffer)).1 else st.labelText;
      |r.elements| > 0 && r.elements[|r.elements| - 1] == FieldOf(tags[st.tagIndex], labelText, Trim(piece)) &&
      r.tagIndex == st.tagIndex + 1 && r.buffer == (if Truthy(st.buffer) then "" else st.buffer)
  {
    FlushAtEffect(st);
    TakeTagEffect(tags, FlushAt(st), Trim(piece));
  }

  /** One piece never removes or changes a record: the records before it stay
      a prefix of the records after it. */
  lemma {:induction false} StepOnlyAppends(tags: seq<FormTag>, st: Scan, piece: string)
    ensures var r := Step(tags, st, piece);
      |st.elements| <= |r.elements| && r.elements[..|st.elements|] == st.elements
  {
    if IsBracketed(Trim(piece)) {
      FlushAtEffect(st);
      var f := FlushAt(st);
      assert |st.elements| <= |f.elements| && f.elements[..|st.elements|] == st.elements;
      TakeTagEffect(tags, f, Trim(piece));
      var r := TakeTag(tags, f, Trim(piece));
      assert r.elements[..|st.elements|] == r.elements[..|f.elements|][..|st.elements|];
    }
  }

  /** After the loop a buffer that is still truthy once its closing tag is
      removed becomes one last text block; otherwise nothing is added. */
  lemma {:induction false} FinishEffect(st: Scan)
    ensures |Finish(st)| == |st.elements| + 1 <==> Truthy(st.buffer) && Truthy(StripClosingTag(st.buffer))
    ensures |Finish(st)| == |st.elements| + 1 ==> Finish(st)[|st.elements|] == TextBlock(StripClosingTag(st.buffer))
    ensures |Finish(st)| == |st.elements| ==> Finish(st) == st.elements
  {
  }

  /** A label as the pass makes it: trimmed, and no tag opens in it (a `<`
      survives strip_tags only before whitespace, which the trim may cut). */
  predicate CleanLabel(l: Option<string>) {
    l.None? || (Trim(l.value) == l.value && NoTagOpens(l.value))
  }

  /** The shape every record has: a text block is never "" or "0"; a field's
      markup source is its trimmed bracketed part, and its label is clean. */
  predicate WellFormed(e: Element) {
    match e
    case TextBlock(content) => Truthy(content)
    case Field(_, _, labelText, _, markupSource, _) =>
      IsBracketed(markupSource) && Trim(markupSource) == markupSource && CleanLabel(labelText)
  }

  predicate AllWellFormed(els: seq<Element>) {
    forall i :: 0 <= i < |els| ==> WellFormed(els[i])
  }

  lemma {:induction false} FlushWellFormed(clean: string)
    ensures AllWellFormed(Flush(clean).0)
    ensures CleanLabel(Flush(clean).1)
  {
    var open := LabelOpen(clean);
    if open.Some? {
      var l := Trim(StripTags(clean[open.value.1 + 1..]));
      LabelIsClean(clean[open.value.1 + 1..]);
      assert Flush(clean) == (BlockOf(Trim(clean[..open.value.0])), Some(l));
      BlockOfWellFormed(Trim(clean[..open.value.0]));
    } else {
      BlockOfWellFormed(clean);
    }
  }

  /** strip_tags, then trim, gives a clean label. */
  lemma {:induction false} LabelIsClean(text: string)
    ensures CleanLabel(Some(Trim(StripTags(text))))
  {
    var rest := StripTags(text);
    StripTagsPlain(text);
    TrimKeepsNoTagOpens(rest);
    var l := Trim(rest);
    assert Trim(l) == l;
  }

  lemma {:induction false} BlockOfWellFormed(text: string)
    ensures AllWellFormed(BlockOf(text))
  {
  }

  lemma {:induction false} FlushAtWellFormed(st: Scan)
    requires AllWellFormed(st.elements) && CleanLabel(st.labelText)
    ensures AllWellFormed(FlushAt(st).elements) && CleanLabel(FlushAt(st).labelText)
  {
    if Truthy(st.buffer) {
      FlushWellFormed(StripClosingTag(st.buffer));
    }
  }

  lemma {:induction false} TakeTagWellFormed(tags: seq<FormTag>, st: Scan, part: string)
    requires IsBracketed(part) && Trim(part) == part
    requires AllWellFormed(st.elements) && CleanLabel(st.labelText)
    ensures AllWellFormed(TakeTag(tags, st, part).elements) && CleanLabel(TakeTag(tags, st, part).labelText)
  {
    if st.tagIndex < |tags| && !IsSkipped(tags[st.tagIndex]) {
      var f := FieldOf(tags[st.tagIndex], st.labelText, part);
      assert f.Field? && f.markupSource == part && f.labelText == st.labelText;
      AppendWellFormed(st.elements, f);
    }
  }

  lemma {:induction false} AppendWellFormed(els: seq<Element>, e: Element)
    requires AllWellFormed(els) && WellFormed(e)
    ensures AllWellFormed(els + [e])
  {
  }

  lemma {:induction false} StepWellFormed(tags: seq<FormTag>, st: Scan, piece: string)
    requires AllWellFormed(st.elements) && CleanLabel(st.labelText)
    ensures AllWellFormed(Step(tags, st, piece).elements) && CleanLabel(Step(tags, st, piece).labelText)
  {
    var part := Trim(piece);
    if IsBracketed(part) {
      FlushAtWellFormed(st);
      TakeTagWellFormed(tags, FlushAt(st), part);
    }
  }

  lemma {:induction false} RunWellFormed(tags: seq<FormTag>, pieces: seq<string>, n: nat)
    requires n <= |pieces|
    ensures AllWellFormed(Run(tags, pieces, n).elements)
    ensures CleanLabel(Run(tags, pieces, n).labelText)
  {
    if n > 0 {
      RunWellFormed(tags, pieces, n - 1);
      StepWellFormed(tags, Run(tags, pieces, n - 1), pieces[n - 1]);
    }
  }

  /** Every record of the result is well formed. */
  lemma {:induction false} FormElementsWellFormed(markup: string, tags: seq<FormTag>)
    ensures AllWellFormed(FormElements(markup, tags))
  {
    var pieces := SplitOnTags(markup);
    RunWellFormed(tags, pieces, |pieces|);
  }

  /** The trimmed pieces, run together. */
  function JoinTrimmed(pieces: seq<string>, n: nat): string
    requires n <= |pieces|
  {
    if n == 0 then "" else JoinTrimmed(pieces, n - 1) + Trim(pieces[n - 1])
  }

  /** Without a bracketed part nothing is flushed and no tag is used: all the
      text sits in the buffer, trimmed piece by piece. */
  lemma {:induction false} NoBracketsAllBuffered(tags: seq<FormTag>, pieces: seq<string>, n: nat)
    requires n <= |pieces|
    requires BracketCount(pieces, n) == 0
    ensures Run(tags, pieces, n) == Scan([], JoinTrimmed(pieces, n), 0, None)
  {
    if n > 0 {
      NoBracketsAllBuffered(tags, pieces, n - 1);
    }
  }

  /** So markup without tags yields at most one text block: the whole text,
      trimmed piece by piece, with its closing tag cut off. */
  lemma {:induction false} NoTagsOneBlock(markup: string, tags: seq<FormTag>)
    requires var pieces := SplitOnTags(markup); BracketCount(pieces, |pieces|) == 0
    ensures var pieces := SplitOnTags(markup);
      var text := StripClosingTag(JoinTrimmed(pieces, |pieces|));
      FormElements(markup, tags) == (if Truthy(JoinTrimmed(pieces, |pieces|)) && Truthy(text) then [TextBlock(text)] else [])
  {
    var pieces := SplitOnTags(markup);
    NoBracketsAllBuffered(tags, pieces, |pieces|);
  }
}
