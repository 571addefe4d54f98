/** parse_tag_options (inc/forms.php): the extra keys a field record gets from
    its form tag. Text-like tags get `min`, `max` and a quoted default; choice
    tags get their option list, a `default:N` pick and the `multiple` flag. */
module TagOptions {
  import opened PhpStrings

  /** One scanned Contact Form 7 tag, as the extractor reads it. */
  datatype FormTag = FormTag(
    rawType: string,       // the tag type as written, `*` included ("text*")
    name: string,
    options: seq<string>,  // the bare option words ("min:3", "include_blank", "default:2")
    values: seq<string>,   // the quoted values, in order
    required: bool)

  /** The keys parse_tag_options may add; an absent key is None (or false for
      `multiple`). In `choices`, None stands for the null entry that
      `include_blank` puts first. */
  datatype FieldOptions = FieldOptions(
    min: Option<string>,
    max: Option<string>,
    defaultValue: Option<string>,
    choices: Option<seq<Option<string>>>,
    multiple: bool)

  const NoOptions := FieldOptions(None, None, None, None, false)

  predicate IsTextKind(kind: string) {
    kind in ["text", "number", "textarea", "date", "email", "tel", "url", "file"]
  }

  predicate IsChoiceKind(kind: string) {
    kind in ["select", "checkbox", "radio", "acceptance", "quiz"]
  }

  /** The index of the last option that starts with `prefix`. */
  function LastWithPrefix(options: seq<string>, prefix: string): (r: Option<nat>)
    ensures r.Some? ==> r.value < |options| && StartsWith(options[r.value], prefix)
    ensures r.Some? ==> forall j :: r.value < j < |options| ==> !StartsWith(options[j], prefix)
    ensures r.None? ==> forall j :: 0 <= j < |options| ==> !StartsWith(options[j], prefix)
  {
    if options == [] then None
    else if StartsWith(options[|options| - 1], prefix) then Some(|options| - 1)
    else LastWithPrefix(options[..|options| - 1], prefix)
  }

  /** The text after `prefix` in the last option carrying it (substr($option, 4)). */
  function PrefixedValue(options: seq<string>, prefix: string): Option<string> {
    match LastWithPrefix(options, prefix)
    case None => None
    case Some(k) => Some(options[k][|prefix|..])
  }

  /** preg_match('/"([^"]*)"/'): the text between the first double quote and
      the next one, so the leftmost quoted text. */
  function FirstQuoted(s: string): (r: Option<string>)
    ensures r.Some? ==>
      exists i :: OccursAt(s, i, "\"" + r.value + "\"") && forall j :: 0 <= j < i ==> s[j] != '"'
    ensures r.Some? ==> forall i :: 0 <= i < |r.value| ==> r.value[i] != '"'
    ensures r.None? ==> forall i, j :: 0 <= i < j < |s| ==> !(s[i] == '"' && s[j] == '"')
  {
    FindCharIsFirst(s, '"', 0);
    match FindChar(s, '"', 0)
    case None => None
    case Some(i) =>
      FindCharIsFirst(s, '"', i + 1);
      match FindChar(s, '"', i + 1)
      case None => None
      case Some(j) =>
        assert s[i..j + 1] == "\"" + s[i + 1..j] + "\"";
        assert OccursAt(s, i, s[i..j + 1]);
        Some(s[i + 1..j])
  }

  predicate IsDigit(c: char) {
    '0' <= c <= '9'
  }

  predicate AllDigits(d: string) {
    forall i :: 0 <= i < |d| ==> IsDigit(d[i])
  }

  /** The decimal value of a digit string, leading zeros allowed ((int) "007" is 7);
      it is only applied to strings of digits. */
  function DecimalValue(d: string): nat {
    if d == [] then 0 else DecimalValue(d[..|d| - 1]) * 10 + DigitValue(d[|d| - 1])
  }

  function DigitValue(c: char): nat {
    if IsDigit(c) then c as int - '0' as int else 0
  }

  /** The digits of `option` when it matches /^default:(\d+)$/. Without the
      D modifier `$` also matches just before one final "\n". */
  function DefaultDigits(option: string): (r: Option<string>)
    ensures r.Some? ==> r.value != [] && AllDigits(r.value)
  {
    if !StartsWith(option, "default:") then None
    else
      var rest := option[8..];
      var body := if EndsWith(rest, "\n") then rest[..|rest| - 1] else rest;
      if body != [] && AllDigits(body) then Some(body) else None
  }

  /** Only `default:` followed by digits, and at most one newline, is recognised. */
  lemma {:induction false} DefaultDigitsShape(option: string)
    ensures var r := DefaultDigits(option);
      r.Some? ==> option == "default:" + r.value || option == "default:" + r.value + "\n"
  {
    if StartsWith(option, "default:") {
      var rest := option[8..];
      assert option == option[..8] + rest;
      if EndsWith(rest, "\n") {
        assert rest == rest[..|rest| - 1] + "\n";
      }
    }
  }

  /** Every `default:` followed by digits, with or without one trailing
      newline, is recognised, and with those digits. */
  lemma {:induction false} DefaultDigitsAccepts(d: string)
    requires d != [] && AllDigits(d)
    ensures DefaultDigits("default:" + d) == Some(d)
    ensures DefaultDigits("default:" + d + "\n") == Some(d)
  {
    var a := "default:" + d;
    assert a[..8] == "default:" && a[8..] == d;
    assert d[|d| - 1] != '\n';
    var b := "default:" + d + "\n";
    assert b[..8] == "default:" && b[8..] == d + "\n";
    assert (d + "\n")[..|d|] == d;
  }

  /** The option list of a choice tag: the tag values, behind a null entry
      for a `select` with `include_blank` (array_unshift). */
  function Choices(kind: string, options: seq<string>, values: seq<string>): (r: seq<Option<string>>)
    ensures var blank := kind == "select" && "include_blank" in options;
      |r| == |values| + (if blank then 1 else 0) &&
      (blank ==> r[0].None?) &&
      forall i :: 0 <= i < |values| ==> r[i + (if blank then 1 else 0)] == Some(values[i])
  {
    var listed := seq(|values|, i requires 0 <= i < |values| => Some(values[i]));
    if kind == "select" && "include_blank" in options then [None] + listed else listed
  }

  /** `option` is a `default:N` whose entry N (counted from 1) exists in
      `choices` and is not null (isset). */
  predicate ValidDefault(option: string, choices: seq<Option<string>>) {
    var n := DefaultNumber(option);
    n.Some? && 1 <= n.value <= |choices| && choices[n.value - 1].Some?
  }

  /** N of a `default:N` option. */
  function DefaultNumber(option: string): Option<nat> {
    match DefaultDigits(option)
    case None => None
    case Some(d) => Some(DecimalValue(d))
  }

  /** The choice a valid `default:N` option selects. */
  function DefaultChoice(option: string, choices: seq<Option<string>>): string
    requires ValidDefault(option, choices)
  {
    choices[DefaultNumber(option).value - 1].value
  }

  /** The index of the last valid `default:N` option. */
  function LastValidDefault(options: seq<string>, choices: seq<Option<string>>): (r: Option<nat>)
    ensures r.Some? ==> r.value < |options| && ValidDefault(options[r.value], choices)
    ensures r.Some? ==> forall j :: r.value < j < |options| ==> !ValidDefault(options[j], choices)
    ensures r.None? ==> forall j :: 0 <= j < |options| ==> !ValidDefault(options[j], choices)
  {
    if options == [] then None
    else if ValidDefault(options[|options| - 1], choices) then Some(|options| - 1)
    else
      var front := options[..|options| - 1];
      assert forall j :: 0 <= j < |front| ==> front[j] == options[j];
      LastValidDefault(front, choices)
  }

  function ChoiceDefault(options: seq<string>, choices: seq<Option<string>>): Option<string> {
    match LastValidDefault(options, choices)
    case None => None
    case Some(k) => Some(DefaultChoice(options[k], choices))
  }

  /** What parse_tag_options returns for a tag of type `kind` (its type with
      the `*` removed) written as `markup`. */
  function TagOptionsOf(kind: string, options: seq<string>, values: seq<string>, markup: string): FieldOptions {
    if IsTextKind(kind) then
      FieldOptions(PrefixedValue(options, "min:"), PrefixedValue(options, "max:"),
                   if Truthy(markup) then FirstQuoted(markup) else None, None, false)
    else if IsChoiceKind(kind) then
      var choices := Choices(kind, options, values);
      FieldOptions(None, None, ChoiceDefault(options, choices), Some(choices), "multiple" in options)
    else NoOptions
  }

  /** Which keys a record gets depends on the kind alone: text-like tags
      never get `choices` or `multiple`, choice tags never get `min` or `max`
      and their default is one of their values, other tags get nothing. */
  lemma {:induction false} KeysFollowKind(kind: string, options: seq<string>, values: seq<string>, markup: string)
    ensures var r := TagOptionsOf(kind, options, values, markup);
      (IsTextKind(kind) ==> r.choices.None? && !r.multiple) &&
      (IsChoiceKind(kind) ==> r.min.None? && r.max.None? && r.choices.Some? &&
                              (r.multiple <==> "multiple" in options) &&
                              (r.defaultValue.Some? ==> r.defaultValue.value in values)) &&
      (!IsTextKind(kind) && !IsChoiceKind(kind) ==> r == NoOptions)
  {
    if !IsTextKind(kind) && IsChoiceKind(kind) {
      DefaultIsListed(kind, options, values);
    }
  }

  /** A `default:N` pick is always one of the tag's own values, never the blank entry. */
  lemma {:induction false} DefaultIsListed(kind: string, options: seq<string>, values: seq<string>)
    ensures var d := ChoiceDefault(options, Choices(kind, options, values));
      d.Some? ==> d.value in values
  {
    var choices := Choices(kind, options, values);
    match LastValidDefault(options, choices)
    case None =>
    case Some(k) =>
      var n := DecimalValue(DefaultDigits(options[k]).value);
      var blank := kind == "select" && "include_blank" in options;
      if blank {
        assert n - 1 != 0;
        assert choices[n - 1] == Some(values[n - 2]);
      } else {
        assert choices[n - 1] == Some(values[n - 1]);
      }
  }

  /** With `include_blank` on a select, `default:N` picks the value N-1 (the
      null entry shifts the count), and `default:1` never picks anything. */
  lemma {:induction false} IncludeBlankShiftsDefault(options: seq<string>, values: seq<string>, d: string)
    requires "include_blank" in options
    requires d != [] && AllDigits(d)
    ensures var choices := Choices("select", options, values);
      var n := DecimalValue(d);
      (ValidDefault("default:" + d, choices) <==> 2 <= n <= |values| + 1) &&
      (2 <= n <= |values| + 1 ==> DefaultChoice("default:" + d, choices) == values[n - 2])
  {
    DefaultDigitsAccepts(d);
    var choices := Choices("select", options, values);
    var n := DecimalValue(d);
    if 2 <= n <= |values| + 1 {
      assert choices[n - 1] == Some(values[n - 2]);
    }
  }

  /** The first loop of the text branch: every `min:`/`max:` option
      overwrites the value before it. */
  method ScanBounds(options: seq<string>) returns (min: Option<string>, max: Option<string>)
    ensures min == PrefixedValue(options, "min:") && max == PrefixedValue(options, "max:")
  {
    min, max := None, None;
    var i := 0;
    while i < |options|
      invariant 0 <= i <= |options|
      invariant min == PrefixedValue(options[..i], "min:")
      invariant max == PrefixedValue(options[..i], "max:")
    {
      var option := options[i];
      if StartsWith(option, "min:") {
        min := Some(option[4..]);
      }
      if StartsWith(option, "max:") {
        max := Some(option[4..]);
      }
      assert options[..i + 1][..i] == options[..i];
      i := i + 1;
    }
    assert options[..i] == options;
  }

  /** The loop of the choice branch: every `default:N` whose entry N is set
      overwrites the pick before it. */
  method ScanDefault(options: seq<string>, choices: seq<Option<string>>) returns (pick: Option<string>)
    ensures pick == ChoiceDefault(options, choices)
  {
    pick := None;
    var i := 0;
    while i < |options|
      invariant 0 <= i <= |options|
      invariant pick == ChoiceDefault(options[..i], choices)
    {
      var option := options[i];
      var digits := DefaultDigits(option);
      if digits.Some? {
        var idx := DecimalValue(digits.value) - 1;
        if 0 <= idx < |choices| && choices[idx].Some? {
          pick := choices[idx];
        }
      }
      ChoiceDefaultStep(options, choices, i);
      i := i + 1;
    }
    assert options[..i] == options;
  }

  lemma {:induction false} ChoiceDefaultStep(options: seq<string>, choices: seq<Option<string>>, i: nat)
    requires i < |options|
    ensures ChoiceDefault(options[..i + 1], choices) ==
      if ValidDefault(options[i], choices) then Some(DefaultChoice(options[i], choices))
      else ChoiceDefault(options[..i], choices)
  {
    assert options[..i + 1][..i] == options[..i];
    assert options[..i + 1][i] == options[i];
  }

  /** The method form of parse_tag_options, building the record key by key. */
  method ParseTagOptions(tag: FormTag, kind: string, markup: string) returns (field: FieldOptions)
    ensures field == TagOptionsOf(kind, tag.options, tag.values, markup)
  {
    field := NoOptions;
    var options := tag.options;
    if IsTextKind(kind) {
      var min, max := ScanBounds(options);
      field := field.(min := min, max := max);
      if Truthy(markup) {
        var m := FirstQuoted(markup);
        if m.Some? {
          field := field.(defaultValue := m);
        }
      }
    }
    if IsChoiceKind(kind) {
      var list := seq(|tag.values|, j requires 0 <= j < |tag.values| => Some(tag.values[j]));
      if kind == "select" && "include_blank" in options {
        list := [None] + list;
      }
      assert list == Choices(kind, options, tag.values);
      field := field.(choices := Some(list));
      var pick := ScanDefault(options, list);
      field := field.(defaultValue := pick);
      if "multiple" in options {
        field := field.(multiple := true);
      }
    }
  }
}
