/** load_env (inc/env.php): the lines of a .env file are read into $_ENV.
    Comment lines are skipped, each other line is split at its first `=`,
    and a name already present is never overwritten. */
module Env {
  import opened PhpStrings

  /** strpos(trim($line), "#") === 0. */
  predicate IsComment(line: string) {
    StartsWith(Trim(line), "#")
  }

  /** array_map("trim", explode("=", $line, 2)): the name before the first
      `=` and the value after it, both trimmed. A line without `=` has no
      second part, so its value is null (None). */
  function SplitLine(line: string): (string, Option<string>) {
    match FindChar(line, '=', 0)
    case Some(i) => (Trim(line[..i]), Some(Trim(line[i + 1..])))
    case None => (Trim(line), None)
  }

  /** The split is at the first `=`: the name holds no `=`, and the value is
      everything after that first `=`, so it may hold more of them. */
  lemma {:induction false} SplitLineAtFirst(line: string)
    ensures forall j :: 0 <= j < |SplitLine(line).0| ==> SplitLine(line).0[j] != '='
    ensures SplitLine(line).1.Some? <==> exists i :: 0 <= i < |line| && line[i] == '='
    ensures SplitLine(line).1.Some? ==>
      (exists i :: 0 <= i < |line| && line[i] == '=' &&
        (forall j :: 0 <= j < i ==> line[j] != '=') &&
        SplitLine(line) == (Trim(line[..i]), Some(Trim(line[i + 1..]))))
  {
    FindCharIsFirst(line, '=', 0);
    match FindChar(line, '=', 0)
    case Some(i) =>
      TrimKeepsAbsent(line[..i], '=');
    case None =>
      TrimKeepsAbsent(line, '=');
  }

  /** A text with no trim-space at either end. */
  predicate IsTrimmed(s: string) {
    s == [] || (!IsTrimSpace(s[0]) && !IsTrimSpace(s[|s| - 1]))
  }

  /** Writing a trimmed name without `=` and a trimmed value as `name=value`
      and splitting the line again gives both back. */
  lemma {:induction false} SplitLineOfEntry(name: string, value: string)
    requires IsTrimmed(name) && IsTrimmed(value)
    requires forall j :: 0 <= j < |name| ==> name[j] != '='
    ensures SplitLine(name + "=" + value) == (name, Some(value))
  {
    var line := name + "=" + value;
    assert line[..|name|] == name;
    assert line[|name| + 1..] == value;
    forall j | 0 <= j < |name| ensures line[j] != '=' { assert line[j] == name[j]; }
    FindCharAt(line, '=', 0, |name|);
  }

  /** The effect of one line on the environment. */
  function ApplyLine(env: map<string, Option<string>>, line: string): map<string, Option<string>> {
    if IsComment(line) then env
    else
      var (name, value) := SplitLine(line);
      if name in env then env else env[name := value]
  }

  /** The environment after the given lines, in order. */
  function Loaded(env: map<string, Option<string>>, lines: seq<string>): map<string, Option<string>> {
    if lines == [] then env else ApplyLine(Loaded(env, lines[..|lines| - 1]), lines[|lines| - 1])
  }

  /** A line that is not a comment names a key. */
  predicate Names(line: string, k: string) {
    !IsComment(line) && SplitLine(line).0 == k
  }

  /** A key already present, from before or from an earlier line, keeps its value. */
  lemma {:induction false} LoadedKeepsExisting(env: map<string, Option<string>>, lines: seq<string>, k: string)
    requires k in env
    ensures k in Loaded(env, lines) && Loaded(env, lines)[k] == env[k]
    decreases |lines|
  {
    if lines != [] {
      LoadedKeepsExisting(env, lines[..|lines| - 1], k);
    }
  }

  /** Some line that is not a comment names `k`. */
  predicate NamedIn(lines: seq<string>, k: string) {
    exists i :: 0 <= i < |lines| && Names(lines[i], k)
  }

  /** A key is named in some lines and one more exactly when it is named in
      the first ones or by the last. */
  lemma {:induction false} NamedInLast(lines: seq<string>, k: string)
    requires lines != []
    ensures NamedIn(lines, k) <==> NamedIn(lines[..|lines| - 1], k) || Names(lines[|lines| - 1], k)
  {
    SomeInLast(lines, lines[..|lines| - 1], line => Names(line, k));
  }

  /** The same split for any property of the elements. */
  lemma {:induction false} SomeInLast<T>(xs: seq<T>, init: seq<T>, p: T -> bool)
    requires xs != [] && init == xs[..|xs| - 1]
    ensures (exists i :: 0 <= i < |xs| && p(xs[i])) <==>
      (exists i :: 0 <= i < |init| && p(init[i])) || p(xs[|xs| - 1])
  {
    if exists i :: 0 <= i < |init| && p(init[i]) {
      var i :| 0 <= i < |init| && p(init[i]);
      assert xs[i] == init[i];
    }
    if exists i :: 0 <= i < |xs| && p(xs[i]) {
      var i :| 0 <= i < |xs| && p(xs[i]);
      if i < |init| { assert init[i] == xs[i]; }
    }
  }

  /** The keys afterwards are the keys before and the names of the lines
      that are not comments; no other key is written. */
  lemma {:induction false} LoadedKeys(env: map<string, Option<string>>, lines: seq<string>, k: string)
    ensures k in Loaded(env, lines) <==> k in env || NamedIn(lines, k)
    decreases |lines|
  {
    if lines != [] {
      LoadedKeys(env, lines[..|lines| - 1], k);
      NamedInLast(lines, k);
    }
  }

  /** A new key takes the value of the first line that names it. */
  lemma {:induction false} LoadedFirstWins(env: map<string, Option<string>>, lines: seq<string>, i: nat)
    requires i < |lines| && !IsComment(lines[i])
    requires SplitLine(lines[i]).0 !in env
    requires forall j :: 0 <= j < i ==> !Names(lines[j], SplitLine(lines[i]).0)
    ensures var k := SplitLine(lines[i]).0;
      k in Loaded(env, lines) && Loaded(env, lines)[k] == SplitLine(lines[i]).1
    decreases |lines|
  {
    var k := SplitLine(lines[i]).0;
    if i == |lines| - 1 {
      LoadedKeys(env, lines[..i], k);
      forall j | 0 <= j < i ensures !Names(lines[..i][j], k) { assert lines[..i][j] == lines[j]; }
    } else {
      var init := lines[..|lines| - 1];
      assert init[i] == lines[i];
      forall j | 0 <= j < i ensures !Names(init[j], k) { assert init[j] == lines[j]; }
      LoadedFirstWins(env, init, i);
    }
  }

  /** Dropping a comment line from anywhere changes nothing. */
  lemma {:induction false} LoadedSkipsComment(env: map<string, Option<string>>, before: seq<string>, comment: string, after: seq<string>)
    requires IsComment(comment)
    ensures Loaded(env, before + [comment] + after) == Loaded(env, before + after)
    decreases |after|
  {
    if after == [] {
      assert (before + [comment] + after)[..|before| + 1 - 1] == before;
      assert before + after == before;
    } else {
      var init := after[..|after| - 1];
      LoadedSkipsComment(env, before, comment, init);
      assert (before + [comment] + after)[..|before + [comment] + after| - 1] == before + [comment] + init;
      assert (before + after)[..|before + after| - 1] == before + init;
    }
  }

  /** Lines that only name keys already present change nothing. */
  lemma {:induction false} LoadedAllPresent(env: map<string, Option<string>>, lines: seq<string>)
    requires forall i :: 0 <= i < |lines| && !IsComment(lines[i]) ==> SplitLine(lines[i]).0 in env
    ensures Loaded(env, lines) == env
    decreases |lines|
  {
    if lines != [] {
      var init := lines[..|lines| - 1];
      forall i | 0 <= i < |init| && !IsComment(init[i]) ensures SplitLine(init[i]).0 in env { assert init[i] == lines[i]; }
      LoadedAllPresent(env, init);
    }
  }

  /** Loading the same lines a second time changes nothing. */
  lemma {:induction false} LoadedIdempotent(env: map<string, Option<string>>, lines: seq<string>)
    ensures Loaded(Loaded(env, lines), lines) == Loaded(env, lines)
  {
    forall i | 0 <= i < |lines| && !IsComment(lines[i]) ensures SplitLine(lines[i]).0 in Loaded(env, lines) {
      LoadedKeys(env, lines, SplitLine(lines[i]).0);
    }
    LoadedAllPresent(Loaded(env, lines), lines);
  }

  /** The $_ENV superglobal, as far as load_env reads and writes it. */
  class Environment {
    /** The variables by name; None stands for PHP's null. */
    var vars: map<string, Option<string>>

    constructor(initial: map<string, Option<string>>)
      ensures vars == initial
    {
      vars := initial;
    }

    /** The foreach over the lines of the file. */
    method LoadLines(lines: seq<string>)
      modifies this
      ensures vars == Loaded(old(vars), lines)
    {
      var i := 0;
      while i < |lines|
        invariant 0 <= i <= |lines|
        invariant vars == Loaded(old(vars), lines[..i])
      {
        var line := lines[i];
        assert lines[..i + 1][..i] == lines[..i];
        if !IsComment(line) {
          var (name, value) := SplitLine(line);
          if name !in vars {
            vars := vars[name := value];
          }
        }
        i := i + 1;
      }
      assert lines[..|lines|] == lines;
    }

    /** load_env: a missing file leaves the environment as it was; otherwise
        its lines (the file read with empty lines skipped) are loaded. */
    method LoadEnv(fileExists: bool, lines: seq<string>)
      modifies this
      ensures vars == if fileExists then Loaded(old(vars), lines) else old(vars)
    {
      if !fileExists {
        return;
      }
      LoadLines(lines);
    }
  }
}
