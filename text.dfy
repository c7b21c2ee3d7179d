/** String helpers shared by the relay components: the few JavaScript string
    primitives the relay code relies on (split on a separator, join, trim,
    first-occurrence replace), each stated on `seq<char>`. */
module Text {

  datatype Option<+T> = None | Some(value: T)

  predicate StartsWith(s: string, p: string) {
    |p| <= |s| && s[..|p|] == p
  }

  /** `pat` occurs in `s` starting at index `i`. */
  predicate OccursAt(s: string, pat: string, i: int) {
    0 <= i && i + |pat| <= |s| && s[i..i + |pat|] == pat
  }

  /** `Array.prototype.join(sep)` for a one-character separator. */
  function Join(ws: seq<string>, sep: char): string {
    if |ws| == 0 then ""
    else if |ws| == 1 then ws[0]
    else ws[0] + [sep] + Join(ws[1..], sep)
  }

  lemma {:induction false} JoinSnoc(ws: seq<string>, w: string, sep: char)
    requires ws != []
    ensures Join(ws + [w], sep) == Join(ws, sep) + [sep] + w
  {
    if |ws| == 1 {
      assert ws + [w] == [ws[0], w];
      assert Join([w], sep) == w;
    } else {
      assert (ws + [w])[1..] == ws[1..] + [w];
      JoinSnoc(ws[1..], w, sep);
    }
  }

  /** `String.prototype.split(sep)` for a one-character separator: one more
      piece than there are separators, none of them containing `sep`, and
      joining them back with `sep` gives the input. */
  function SplitOn(s: string, sep: char): (ws: seq<string>)
    ensures |ws| >= 1
    ensures forall i :: 0 <= i < |ws| ==> sep !in ws[i]
    ensures Join(ws, sep) == s
    decreases |s|
  {
    if |s| == 0 then [""]
    else
      var rest := SplitOn(s[1..], sep);
      if s[0] == sep then
        assert [""] + rest == [""] + rest;
        assert s == [sep] + s[1..];
        [""] + rest
      else
        var ws := [[s[0]] + rest[0]] + rest[1..];
        assert Join(ws, sep) == s by {
          if |rest| == 1 {
          } else {
            assert ws[1..] == rest[1..];
            assert Join(rest, sep) == rest[0] + [sep] + Join(rest[1..], sep);
            assert s == [s[0]] + s[1..];
          }
        }
        ws
  }

  lemma {:induction false} JoinAppend(a: seq<string>, b: seq<string>, sep: char)
    requires a != [] && b != []
    ensures Join(a + b, sep) == Join(a, sep) + [sep] + Join(b, sep)
    decreases |a|
  {
    if |a| == 1 {
      assert (a + b)[1..] == b;
    } else {
      JoinAppend(a[1..], b, sep);
      assert (a + b)[1..] == a[1..] + b;
    }
  }

  /** Splitting `a sep b`, where `a` holds no separator, gives `a` and then the pieces of `b`. */
  lemma {:induction false} SplitOnCons(a: string, b: string, sep: char)
    requires sep !in a
    ensures SplitOn(a + [sep] + b, sep) == [a] + SplitOn(b, sep)
    decreases |a|
  {
    if a == [] {
      assert ([] + [sep] + b)[1..] == b;
    } else {
      assert (a + [sep] + b)[1..] == a[1..] + [sep] + b;
      SplitOnCons(a[1..], b, sep);
      assert a == [a[0]] + a[1..];
    }
  }

  /** A string without the separator splits into itself. */
  lemma {:induction false} SplitOnWord(a: string, sep: char)
    requires sep !in a
    ensures SplitOn(a, sep) == [a]
    decreases |a|
  {
    if a != [] {
      SplitOnWord(a[1..], sep);
      assert a == [a[0]] + a[1..];
    }
  }

  /** Split inverts Join for pieces that hold no separator. */
  lemma {:induction false} SplitOnJoin(ws: seq<string>, sep: char)
    requires ws != [] && forall i :: 0 <= i < |ws| ==> sep !in ws[i]
    ensures SplitOn(Join(ws, sep), sep) == ws
    decreases |ws|
  {
    if |ws| == 1 {
      SplitOnWord(ws[0], sep);
    } else {
      SplitOnJoin(ws[1..], sep);
      SplitOnCons(ws[0], Join(ws[1..], sep), sep);
      assert ws == [ws[0]] + ws[1..];
    }
  }

  /** The characters `String.prototype.trim` removes: ECMAScript WhiteSpace
      and LineTerminator code units. */
  predicate IsJsSpace(c: char) {
    c == '\t' || c == '\n' || c == '\U{B}' || c == '\U{C}' || c == '\r' || c == ' '
    || c == '\U{A0}' || c == '\U{1680}' || ('\U{2000}' <= c <= '\U{200A}')
    || c == '\U{2028}' || c == '\U{2029}' || c == '\U{202F}' || c == '\U{205F}'
    || c == '\U{3000}' || c == '\U{FEFF}'
  }

  /** Index of the first non-whitespace character at or after `i`, or `|s|`. */
  function SkipSpaces(s: string, i: nat): (r: nat)
    requires i <= |s|
    ensures i <= r <= |s|
    ensures forall k :: i <= k < r ==> IsJsSpace(s[k])
    ensures r == |s| || !IsJsSpace(s[r])
    decreases |s| - i
  {
    if i < |s| && IsJsSpace(s[i]) then SkipSpaces(s, i + 1) else i
  }

  /** Index just past the last non-whitespace character before `j` and at or
      after `lo`, or `lo`. */
  function SkipSpacesBack(s: string, lo: nat, j: nat): (r: nat)
    requires lo <= j <= |s|
    ensures lo <= r <= j
    ensures forall k :: r <= k < j ==> IsJsSpace(s[k])
    ensures r == lo || !IsJsSpace(s[r - 1])
    decreases j
  {
    if lo < j && IsJsSpace(s[j - 1]) then SkipSpacesBack(s, lo, j - 1) else j
  }

  /** `String.prototype.trim`: the longest inner slice of `s` that neither
      starts nor ends with whitespace; everything cut off is whitespace. */
  function Trim(s: string): (r: string)
    ensures exists i :: OccursAt(s, r, i) && (forall k :: 0 <= k < i ==> IsJsSpace(s[k]))
                        && (forall k :: i + |r| <= k < |s| ==> IsJsSpace(s[k]))
    ensures r == [] || (!IsJsSpace(r[0]) && !IsJsSpace(r[|r| - 1]))
  {
    var i := SkipSpaces(s, 0);
    var j := SkipSpacesBack(s, i, |s|);
    assert OccursAt(s, s[i..j], i);
    s[i..j]
  }

  /** Every character Trim keeps comes from its input. */
  lemma TrimKeepsChars(s: string)
    ensures forall k :: 0 <= k < |Trim(s)| ==> Trim(s)[k] in s
  {
    var r := Trim(s);
    var i :| OccursAt(s, r, i);
    assert forall k :: 0 <= k < |r| ==> r[k] == s[i + k];
  }

  lemma TrimOfTrimmed(s: string)
    requires s == [] || (!IsJsSpace(s[0]) && !IsJsSpace(s[|s| - 1]))
    ensures Trim(s) == s
  {
  }

  /** Trailing whitespace after text with non-space ends is what trim drops. */
  lemma TrimDropsTrailing(a: string, b: string)
    requires a != [] && !IsJsSpace(a[0]) && !IsJsSpace(a[|a| - 1])
    requires forall k :: 0 <= k < |b| ==> IsJsSpace(b[k])
    ensures Trim(a + b) == a
  {
    var s := a + b;
    var r := Trim(s);
    var i :| OccursAt(s, r, i) && (forall k :: 0 <= k < i ==> IsJsSpace(s[k]))
             && (forall k :: i + |r| <= k < |s| ==> IsJsSpace(s[k]));
    assert s[0] == a[0];
    assert i == 0;
    assert s[|a| - 1] == a[|a| - 1];
    assert |r| >= |a|;
    assert r == s[..|a|] == a;
  }

  /** Index of the first occurrence of `pat` in `s` at or after `from`, or -1
      (`String.prototype.indexOf`). */
  function IndexOf(s: string, pat: string, from: nat): (r: int)
    ensures r == -1 || (from <= r && OccursAt(s, pat, r))
    ensures r == -1 ==> forall i :: from <= i ==> !OccursAt(s, pat, i)
    ensures r != -1 ==> forall i :: from <= i < r ==> !OccursAt(s, pat, i)
    decreases |s| - from
  {
    if from + |pat| > |s| then -1
    else if s[from..from + |pat|] == pat then from
    else IndexOf(s, pat, from + 1)
  }

  /** `String.prototype.replace(pat, rep)` with a string pattern: only the
      first occurrence is replaced, and `rep` is inserted literally. */
  function ReplaceFirst(s: string, pat: string, rep: string): (r: string)
    ensures (forall i :: !OccursAt(s, pat, i)) ==> r == s
    ensures forall i :: OccursAt(s, pat, i) && (forall j :: 0 <= j < i ==> !OccursAt(s, pat, j)) ==>
      r == s[..i] + rep + s[i + |pat|..]
  {
    var i := IndexOf(s, pat, 0);
    if i == -1 then s else s[..i] + rep + s[i + |pat|..]
  }
}
