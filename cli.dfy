/** `parseArgs` of src/cli.ts: a token starting with `--` names a key whose
    value is the next token, which is then skipped whatever it looks like;
    any other token is ignored. A key with no token after it gets JavaScript's
    `undefined`, written `None` here. */
module Cli {
  import opened Text

  type Parsed = map<string, Option<string>>

  predicate IsFlag(arg: string) {
    StartsWith(arg, "--")
  }

  /** The tokens from position `i` on; nothing once `i` has passed the end. */
  function Drop(args: seq<string>, i: nat): (r: seq<string>)
    ensures i <= |args| ==> r == args[i..]
    ensures i >= |args| ==> r == []
  {
    if i >= |args| then [] else args[i..]
  }

  /** What the scan reads from `args`, the later assignments overriding the
      earlier ones. */
  function Parse(args: seq<string>): Parsed
    decreases |args|
  {
    if args == [] then map[]
    else if IsFlag(args[0]) then
      map[args[0][2..] := if |args| > 1 then Some(args[1]) else None] + Parse(Drop(args, 2))
    else Parse(args[1..])
  }

  /** The loop of `parseArgs`, which steps `i` once more inside the body when
      it has read a key. */
  method ParseArgs(args: seq<string>) returns (parsed: Parsed)
    ensures parsed == Parse(args)
  {
    parsed := map[];
    assert map[] + Parse(Drop(args, 0)) == Parse(args);
    var i := 0;
    while i < |args|
      invariant 0 <= i <= |args| + 1
      invariant Parse(args) == parsed + Parse(Drop(args, i))
      decreases |args| - i
    {
      var arg := args[i];
      ghost var rest := Drop(args, i);
      assert rest[0] == arg && rest[1..] == Drop(args, i + 1);
      if IsFlag(arg) {
        var value := if i + 1 < |args| then Some(args[i + 1]) else None;
        assert Drop(rest, 2) == Drop(args, i + 2);
        UpdateThenMerge(parsed, arg[2..], value, Parse(Drop(args, i + 2)));
        parsed := parsed[arg[2..] := value];
        i := i + 1;
      }
      i := i + 1;
    }
  }

  lemma UpdateThenMerge(m: Parsed, k: string, v: Option<string>, rest: Parsed)
    ensures m[k := v] + rest == m + (map[k := v] + rest)
  {
  }

  /** The scan of `xs` ends at its end: it does not stop on a key whose value
      would be the first token after `xs`. */
  predicate Closed(xs: seq<string>)
    decreases |xs|
  {
    if xs == [] then true
    else if IsFlag(xs[0]) then |xs| >= 2 && Closed(xs[2..])
    else Closed(xs[1..])
  }

  // ---------------------------------------------------------------------
  // Properties of the parse
  // ---------------------------------------------------------------------

  /** A key takes the next token as its value, even one that starts with
      `--`, and that token is not read again; a later assignment to the
      same key wins. */
  lemma KeyTakesNextToken(key: string, value: string, rest: seq<string>)
    requires IsFlag(key)
    ensures Parse([key, value] + rest) ==
      if key[2..] in Parse(rest) then Parse(rest) else Parse(rest)[key[2..] := Some(value)]
  {
    var args := [key, value] + rest;
    assert args[0] == key && args[1] == value && Drop(args, 2) == rest;
  }

  /** A value that starts with `--` is still a value: it is not read as a key. */
  lemma DashedValueConsumed(key: string, value: string)
    requires IsFlag(key) && IsFlag(value) && key[2..] != value[2..]
    ensures Parse([key, value]) == map[key[2..] := Some(value)]
    ensures value[2..] !in Parse([key, value])
  {
    KeyTakesNextToken(key, value, []);
  }

  /** A token that is not a key, and is not a key's value, is ignored. */
  lemma NonKeyIgnored(arg: string, rest: seq<string>)
    requires !IsFlag(arg)
    ensures Parse([arg] + rest) == Parse(rest)
  {
    assert ([arg] + rest)[1..] == rest;
  }

  /** A key at the very end has no value. */
  lemma TrailingKeyAbsent(key: string)
    requires IsFlag(key)
    ensures Parse([key]) == map[key[2..] := None]
  {
    var none: Parsed := map[];
    assert map[key[2..] := None] + none == map[key[2..] := None];
  }

  /** After a closed prefix the scan starts afresh, and the suffix's
      assignments override the prefix's. */
  lemma {:induction false} ParseAppend(xs: seq<string>, ys: seq<string>)
    requires Closed(xs)
    ensures Parse(xs + ys) == Parse(xs) + Parse(ys)
    decreases |xs|
  {
    if xs == [] {
      assert xs + ys == ys;
    } else if IsFlag(xs[0]) {
      var s := xs + ys;
      assert s[0] == xs[0] && s[1] == xs[1];
      assert Drop(s, 2) == xs[2..] + ys;
      ParseAppend(xs[2..], ys);
    } else {
      var s := xs + ys;
      assert s[0] == xs[0] && s[1..] == xs[1..] + ys;
      ParseAppend(xs[1..], ys);
    }
  }

  /** A key repeated at the end, after a closed prefix, overwrites whatever
      the prefix gave it. */
  lemma LaterDuplicateWins(xs: seq<string>, key: string, value: string)
    requires Closed(xs) && IsFlag(key)
    ensures key[2..] in Parse(xs + [key, value]) && Parse(xs + [key, value])[key[2..]] == Some(value)
  {
    ParseAppend(xs, [key, value]);
    KeyTakesNextToken(key, value, []);
  }

  /** Every key comes from a token that starts with `--`, with the two dashes
      dropped, and every value present is a token of `args`. */
  lemma {:induction false} ParsedFromTokens(args: seq<string>, k: string)
    requires k in Parse(args)
    ensures exists i :: 0 <= i < |args| && IsFlag(args[i]) && args[i][2..] == k
    ensures Parse(args)[k].Some? ==> Parse(args)[k].value in args
    decreases |args|
  {
    if IsFlag(args[0]) {
      var rest := Drop(args, 2);
      if k in Parse(rest) {
        ParsedFromTokens(rest, k);
        var j :| 0 <= j < |rest| && IsFlag(rest[j]) && rest[j][2..] == k;
        assert args[j + 2] == rest[j];
      } else {
        assert IsFlag(args[0]) && args[0][2..] == k;
      }
    } else {
      ParsedFromTokens(args[1..], k);
      var j :| 0 <= j < |args[1..]| && IsFlag(args[1..][j]) && args[1..][j][2..] == k;
      assert args[j + 1] == args[1..][j];
    }
  }

  /** `--config a.json --target mc` reads both keys. */
  lemma ScenarioTwoKeys(args: seq<string>)
    requires args == ["--config", "a.json", "--target", "mc"]
    ensures Parse(args) == map["config" := Some("a.json"), "target" := Some("mc")]
  {
    assert args == ["--config", "a.json"] + (["--target", "mc"] + []);
    assert IsFlag("--config") && "--config"[2..] == "config";
    assert IsFlag("--target") && "--target"[2..] == "target";
    KeyTakesNextToken("--target", "mc", []);
    KeyTakesNextToken("--config", "a.json", ["--target", "mc"]);
  }
}
