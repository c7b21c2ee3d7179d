/** The text sanitizers of src/relay/sanitize.ts. Each global regular
    expression replace becomes a left-to-right scanner: at each position it
    either matches (and resumes after the match) or keeps one character and
    moves on, which is how `String.prototype.replace` with the `g` flag
    walks its input. */
module Sanitize {
  import opened Text

  // ---------------------------------------------------------------------
  // stripMcFormatting: text.replace(/<marker>./g, "")
  // ---------------------------------------------------------------------

  /** The two characters the formatting pattern of src/relay/sanitize.ts:3
      actually spells: U+0E22 U+0E07, the bytes of the section sign read in
      a Thai code page. */
  const SourceMarker: string := "\U{0E22}\U{0E07}"

  /** The section sign U+00A7 that the comment on that line names. */
  const SectionSign: string := "\U{A7}"

  /** The characters `.` does not match. */
  predicate IsLineTerminator(c: char) {
    c == '\n' || c == '\r' || c == '\U{2028}' || c == '\U{2029}'
  }

  /** A formatting code starts at `i`: the marker followed by one character
      that is not a line terminator. */
  predicate FormatCodeAt(s: string, marker: string, i: int) {
    OccursAt(s, marker, i) && i + |marker| < |s| && !IsLineTerminator(s[i + |marker|])
  }

  /** `stripMcFormatting` with the formatting marker as a parameter: deletes
      every marker-plus-next-character, scanning left to right without
      overlap. The result is never longer than the text. */
  function StripMcFormatting(text: string, marker: string): (r: string)
    ensures |r| <= |text|
    decreases |text|
  {
    if |text| == 0 then ""
    else if FormatCodeAt(text, marker, 0) then StripMcFormatting(text[|marker| + 1..], marker)
    else [text[0]] + StripMcFormatting(text[1..], marker)
  }

  lemma FormatCodeShift(s: string, marker: string, j: int)
    requires 1 <= j && s != []
    ensures FormatCodeAt(s[1..], marker, j - 1) <==> FormatCodeAt(s, marker, j)
  {
    if j + |marker| <= |s| {
      SliceOfTail(s, j - 1, j - 1 + |marker|);
    }
  }

  lemma SliceOfTail(s: string, a: int, b: int)
    requires 0 <= a <= b < |s|
    ensures s[1..][a..b] == s[a + 1..b + 1]
  {
    forall i | 0 <= i < b - a
      ensures s[1..][a..b][i] == s[a + 1..b + 1][i]
    {
    }
  }

  /** Without a formatting code at its head the scan keeps the first character. */
  lemma StripStepPlain(s: string, marker: string)
    requires s != [] && !FormatCodeAt(s, marker, 0)
    ensures StripMcFormatting(s, marker) == [s[0]] + StripMcFormatting(s[1..], marker)
  {
  }

  lemma PrefixAfterHead(s: string, k: nat, x: string)
    requires 0 < k <= |s|
    ensures s[1..][k - 1..] == s[k..]
    ensures s[..k] + x == [s[0]] + (s[1..][..k - 1] + x)
  {
    assert s[..k] == [s[0]] + s[1..][..k - 1];
  }

  /** Text with no formatting code at the first `k` positions keeps those
      `k` characters. */
  lemma {:induction false} KeepsUncodedPrefix(s: string, marker: string, k: nat)
    requires k <= |s|
    requires forall j :: 0 <= j < k ==> !FormatCodeAt(s, marker, j)
    ensures StripMcFormatting(s, marker) == s[..k] + StripMcFormatting(s[k..], marker)
    decreases k
  {
    if k > 0 {
      var t := s[1..];
      forall j | 0 <= j < k - 1
        ensures !FormatCodeAt(t, marker, j)
      {
        FormatCodeShift(s, marker, j + 1);
      }
      KeepsUncodedPrefix(t, marker, k - 1);
      StripStepPlain(s, marker);
      PrefixAfterHead(s, k, StripMcFormatting(s[k..], marker));
    } else {
      assert s[..0] == [];
    }
  }

  /** Text that does not contain the marker comes back unchanged. */
  lemma NoMarkerUnchanged(text: string, marker: string)
    requires forall i :: !OccursAt(text, marker, i)
    ensures StripMcFormatting(text, marker) == text
  {
    KeepsUncodedPrefix(text, marker, |text|);
    assert text[..|text|] == text;
    assert text[|text|..] == [];
  }

  /** A text without the first character of the marker does not contain it. */
  lemma LeadAbsentNoMarker(text: string, marker: string)
    requires marker != [] && marker[0] !in text
    ensures forall i :: !OccursAt(text, marker, i)
  {
    forall i | 0 <= i && i + |marker| <= |text|
      ensures !OccursAt(text, marker, i)
    {
      assert text[i..i + |marker|][0] == text[i];
    }
  }

  /** A marker and the character after it disappear together. */
  lemma CodeRemoved(marker: string, c: char, rest: string)
    requires !IsLineTerminator(c)
    ensures StripMcFormatting(marker + [c] + rest, marker) == StripMcFormatting(rest, marker)
  {
    var s := marker + [c] + rest;
    assert s[..|marker|] == marker;
    assert s[|marker| + 1..] == rest;
  }

  /** A marker followed by a line terminator is not a formatting code: both
      stay, as long as the terminator is not part of the marker. */
  lemma MarkerBeforeTerminatorKept(marker: string, t: char, rest: string)
    requires IsLineTerminator(t) && t !in marker
    ensures StripMcFormatting(marker + [t] + rest, marker) == marker + [t] + StripMcFormatting(rest, marker)
  {
    var s := marker + [t] + rest;
    var k := |marker| + 1;
    forall j | 0 < j < k && j + |marker| <= |s|
      ensures !OccursAt(s, marker, j)
    {
      assert s[j..j + |marker|][|marker| - j] == s[|marker|] == t;
    }
    KeepsUncodedPrefix(s, marker, k);
    assert s[..k] == marker + [t];
    assert s[k..] == rest;
  }

  /** As written the pattern spells U+0E22 U+0E07, so a section-sign code is
      left in place. */
  lemma SourceMarkerKeepsSectionCodes(text: string)
    requires text == "\U{A7}aHello"
    ensures StripMcFormatting(text, SourceMarker) == text
  {
    LeadAbsentNoMarker(text, SourceMarker);
    NoMarkerUnchanged(text, SourceMarker);
  }

  /** Characters before the first marker character pass through unchanged. */
  lemma StripKeepsPlainPrefix(a: string, b: string, marker: string)
    requires marker != [] && marker[0] !in a
    ensures StripMcFormatting(a + b, marker) == a + StripMcFormatting(b, marker)
  {
    var s := a + b;
    forall j | 0 <= j < |a| && j + |marker| <= |s|
      ensures !OccursAt(s, marker, j)
    {
      assert s[j..j + |marker|][0] == a[j];
    }
    KeepsUncodedPrefix(s, marker, |a|);
    assert s[..|a|] == a && s[|a|..] == b;
  }

  /** A code followed by plain text leaves the plain text. */
  lemma CodeThenPlain(m: string, c: char, a: string, w: string)
    requires m != [] && m[0] !in a && !IsLineTerminator(c)
    ensures StripMcFormatting(m + [c] + a + w, m) == a + StripMcFormatting(w, m)
  {
    var t := a + w;
    assert m + [c] + a + w == m + [c] + t;
    CodeRemoved(m, c, t);
    StripKeepsPlainPrefix(a, w, m);
  }

  /** Two codes, each followed by plain text, leave only the plain text. */
  lemma TwoCodesRemoved(m: string, c1: char, a: string, c2: char, b: string)
    requires m != [] && m[0] !in a && m[0] !in b
    requires !IsLineTerminator(c1) && !IsLineTerminator(c2)
    ensures StripMcFormatting(m + [c1] + a + m + [c2] + b, m) == a + b
  {
    var w := m + [c2] + b;
    assert m + [c1] + a + m + [c2] + b == m + [c1] + a + w;
    CodeThenPlain(m, c1, a, w);
    assert w == m + [c2] + b + [];
    CodeThenPlain(m, c2, b, []);
    assert b + [] == b;
  }

  lemma SectionSignText(text: string)
    requires text == "\U{A7}aHello \U{A7}bWorld"
    ensures text == SectionSign + ['a'] + "Hello " + SectionSign + ['b'] + "World"
  {
  }

  lemma HelloWorldPlain()
    ensures '\U{A7}' !in "Hello " && '\U{A7}' !in "World"
    ensures "Hello " + "World" == "Hello World"
  {
  }

  /** With the section sign, "§aHello §bWorld" becomes "Hello World". */
  lemma SectionSignStripsCodes(text: string)
    requires text == "\U{A7}aHello \U{A7}bWorld"
    ensures StripMcFormatting(text, SectionSign) == "Hello World"
  {
    SectionSignText(text);
    HelloWorldPlain();
    TwoCodesRemoved(SectionSign, 'a', "Hello ", 'b', "World");
  }

  // ---------------------------------------------------------------------
  // sanitizeDiscordToMc
  // ---------------------------------------------------------------------

  datatype MentionPolicy = MentionNone | MentionUsers | MentionAll

  /** The policy used when the caller passes none (src/relay/sanitize.ts:8). */
  const DefaultMentionPolicy: MentionPolicy := MentionNone

  /** Every character of `r` occurs in `s`. */
  predicate CharsFrom(r: string, s: string) {
    forall c :: c in r ==> c in s
  }

  predicate IsBreak(c: char) {
    c == '\r' || c == '\n'
  }

  /** `replace(/[\r\n]+/g, " ")`: each maximal run of CR and LF becomes one
      space. `inRun` says the previous character was part of a run. */
  function CollapseNewlines(s: string, inRun: bool): (r: string)
    ensures '\r' !in r && '\n' !in r
    decreases |s|
  {
    if s == [] then ""
    else if IsBreak(s[0]) then
      (if inRun then "" else " ") + CollapseNewlines(s[1..], true)
    else [s[0]] + CollapseNewlines(s[1..], false)
  }

  /** `replace(/@(everyone|here)/g, "$1")`: the `@` of each `@everyone` and
      `@here` is dropped and the word is kept. */
  function NeutralizeBroadcast(s: string): string
    decreases |s|
  {
    if s == [] then ""
    else if StartsWith(s, "@everyone") then s[1..9] + NeutralizeBroadcast(s[9..])
    else if StartsWith(s, "@here") then s[1..5] + NeutralizeBroadcast(s[5..])
    else [s[0]] + NeutralizeBroadcast(s[1..])
  }

  /** `\d`: an ASCII digit. */
  predicate IsDigit(c: char) {
    '0' <= c <= '9'
  }

  /** Length of the run of digits at the start of `s`. */
  function DigitRun(s: string): (n: nat)
    ensures n <= |s|
    decreases |s|
  {
    if s != [] && IsDigit(s[0]) then 1 + DigitRun(s[1..]) else 0
  }

  /** Length of a mention `<lead digits>` at the start of `s` whose opening is
      `lead`, or 0 when there is none. */
  function MentionLen(s: string, lead: string): (n: nat)
    ensures n == 0 || |lead| + 2 <= n <= |s|
  {
    if !StartsWith(s, lead) then 0
    else
      var d := DigitRun(s[|lead|..]);
      if d > 0 && |lead| + d < |s| && s[|lead| + d] == '>' then |lead| + d + 1 else 0
  }

  /** `<@&digits>`. */
  function RoleMentionLen(s: string): nat {
    MentionLen(s, "<@&")
  }

  /** `<@!?digits>`: the `!` is tried first; without it the next character
      would have to be a digit, which `!` is not. */
  function UserMentionLen(s: string): nat {
    if StartsWith(s, "<@!") then MentionLen(s, "<@!") else MentionLen(s, "<@")
  }

  /** `replace(/<@&(\d+)>/g, "")`. */
  function DeleteRoleMentions(s: string): string
    decreases |s|
  {
    if s == [] then ""
    else
      var n := RoleMentionLen(s);
      if n > 0 then DeleteRoleMentions(s[n..]) else [s[0]] + DeleteRoleMentions(s[1..])
  }

  /** `replace(/<@!?(\d+)>/g, "")`. */
  function DeleteUserMentions(s: string): string
    decreases |s|
  {
    if s == [] then ""
    else
      var n := UserMentionLen(s);
      if n > 0 then DeleteUserMentions(s[n..]) else [s[0]] + DeleteUserMentions(s[1..])
  }

  predicate IsMarkdown(c: char) {
    c == '*' || c == '_' || c == '~' || c == '`' || c == '|'
  }

  /** `replace(/[*_~`|]/g, "")`. */
  function StripMarkdown(s: string): string
    decreases |s|
  {
    if s == [] then ""
    else if IsMarkdown(s[0]) then StripMarkdown(s[1..])
    else [s[0]] + StripMarkdown(s[1..])
  }

  // Every pass after the first only deletes characters.

  lemma SliceChars(s: string, a: int, b: int)
    requires 0 <= a <= b <= |s|
    ensures CharsFrom(s[a..b], s)
  {
    forall c | c in s[a..b]
      ensures c in s
    {
      var k :| 0 <= k < b - a && s[a..b][k] == c;
      assert s[a + k] == c;
    }
  }

  lemma {:induction false} CollapseChars(s: string, inRun: bool)
    ensures forall c :: c in CollapseNewlines(s, inRun) ==> c == ' ' || c in s
    decreases |s|
  {
    if s != [] {
      CollapseChars(s[1..], !IsBreak(s[0]) ==> false);
      SliceChars(s, 1, |s|);
    }
  }

  lemma {:induction false} NeutralizeChars(s: string)
    ensures CharsFrom(NeutralizeBroadcast(s), s)
    decreases |s|
  {
    if s != [] {
      var k := if StartsWith(s, "@everyone") then 9 else if StartsWith(s, "@here") then 5 else 1;
      NeutralizeChars(s[k..]);
      SliceChars(s, k, |s|);
      SliceChars(s, if k == 1 then 0 else 1, k);
    }
  }

  lemma {:induction false} RolesChars(s: string)
    ensures CharsFrom(DeleteRoleMentions(s), s)
    decreases |s|
  {
    if s != [] {
      var n := RoleMentionLen(s);
      var k := if n > 0 then n else 1;
      RolesChars(s[k..]);
      SliceChars(s, k, |s|);
    }
  }

  lemma {:induction false} UsersChars(s: string)
    ensures CharsFrom(DeleteUserMentions(s), s)
    decreases |s|
  {
    if s != [] {
      var n := UserMentionLen(s);
      var k := if n > 0 then n else 1;
      UsersChars(s[k..]);
      SliceChars(s, k, |s|);
    }
  }

  /** The markdown pass leaves no markdown character and adds none. */
  lemma {:induction false} MarkdownChars(s: string)
    ensures CharsFrom(StripMarkdown(s), s)
    ensures forall c :: c in StripMarkdown(s) ==> !IsMarkdown(c)
    decreases |s|
  {
    if s != [] {
      MarkdownChars(s[1..]);
      SliceChars(s, 1, |s|);
    }
  }

  /** The user-mention step, which only the "none" policy performs. */
  function ApplyUserPolicy(s: string, policy: MentionPolicy): string {
    if policy == MentionNone then DeleteUserMentions(s) else s
  }

  /** `sanitizeDiscordToMc(text, policy)`. */
  function SanitizeDiscordToMc(text: string, policy: MentionPolicy): string {
    var collapsed := CollapseNewlines(text, false);
    var neutral := NeutralizeBroadcast(collapsed);
    var noRoles := DeleteRoleMentions(neutral);
    var noUsers := ApplyUserPolicy(noRoles, policy);
    Trim(StripMarkdown(noUsers))
  }

  /** Characters the sanitized text never contains. */
  predicate Forbidden(c: char) {
    IsBreak(c) || IsMarkdown(c)
  }

  lemma TrimCharsFrom(s: string)
    ensures CharsFrom(Trim(s), s)
  {
    TrimKeepsChars(s);
    forall c | c in Trim(s)
      ensures c in s
    {
      var k :| 0 <= k < |Trim(s)| && Trim(s)[k] == c;
    }
  }

  /** The sanitized text holds no CR, no LF and no markdown character, and
      neither starts nor ends with whitespace. */
  lemma SanitizedIsClean(text: string, policy: MentionPolicy)
    ensures var r := SanitizeDiscordToMc(text, policy);
      (forall i :: 0 <= i < |r| ==> !Forbidden(r[i]))
      && (r == [] || (!IsJsSpace(r[0]) && !IsJsSpace(r[|r| - 1])))
  {
    var collapsed := CollapseNewlines(text, false);
    var neutral := NeutralizeBroadcast(collapsed);
    var noRoles := DeleteRoleMentions(neutral);
    var noUsers := ApplyUserPolicy(noRoles, policy);
    var md := StripMarkdown(noUsers);
    var r := Trim(md);
    CollapseChars(text, false);
    NeutralizeChars(collapsed);
    RolesChars(neutral);
    if policy == MentionNone {
      UsersChars(noRoles);
    }
    MarkdownChars(noUsers);
    TrimCharsFrom(md);
    forall i | 0 <= i < |r|
      ensures !Forbidden(r[i])
    {
      assert r[i] in r;
      assert r[i] in md;
      assert r[i] in noUsers && r[i] in noRoles && r[i] in neutral && r[i] in collapsed;
    }
  }

  /** The "users" and "all" policies give the same result on every text. */
  lemma UsersSameAsAll(text: string)
    ensures SanitizeDiscordToMc(text, MentionUsers) == SanitizeDiscordToMc(text, MentionAll)
  {
  }

  /** A role mention at the scan position is deleted whole. */
  lemma RoleMentionDeleted(digits: string, rest: string)
    requires digits != [] && forall i :: 0 <= i < |digits| ==> IsDigit(digits[i])
    ensures DeleteRoleMentions("<@&" + digits + ">" + rest) == DeleteRoleMentions(rest)
  {
    var s := "<@&" + digits + ">" + rest;
    MentionAtHead("<@&", digits, rest);
    assert s[|digits| + 4..] == rest;
  }

  /** A user mention, with or without `!`, at the scan position is deleted
      whole by the "none" step. */
  lemma UserMentionDeleted(bang: bool, digits: string, rest: string)
    requires digits != [] && forall i :: 0 <= i < |digits| ==> IsDigit(digits[i])
    ensures var lead := if bang then "<@!" else "<@";
      DeleteUserMentions(lead + digits + ">" + rest) == DeleteUserMentions(rest)
  {
    var lead := if bang then "<@!" else "<@";
    var s := lead + digits + ">" + rest;
    MentionAtHead(lead, digits, rest);
    if !bang {
      assert s[2] == digits[0];
      assert !StartsWith(s, "<@!");
    }
    assert s[|lead| + |digits| + 1..] == rest;
  }

  lemma MentionAtHead(lead: string, digits: string, rest: string)
    requires digits != [] && forall i :: 0 <= i < |digits| ==> IsDigit(digits[i])
    ensures MentionLen(lead + digits + ">" + rest, lead) == |lead| + |digits| + 1
  {
    var s := lead + digits + ">" + rest;
    assert s[..|lead|] == lead;
    DigitRunOf(digits, ">" + rest);
    assert s[|lead|..] == digits + (">" + rest);
  }

  lemma {:induction false} DigitRunOf(digits: string, rest: string)
    requires forall i :: 0 <= i < |digits| ==> IsDigit(digits[i])
    requires rest == [] || !IsDigit(rest[0])
    ensures DigitRun(digits + rest) == |digits|
    decreases |digits|
  {
    if digits != [] {
      DigitRunOf(digits[1..], rest);
      assert (digits + rest)[1..] == digits[1..] + rest;
    } else {
      assert digits + rest == rest;
    }
  }

  /** Characters before the first `@` pass through the broadcast pass. */
  lemma {:induction false} NeutralizeKeepsPlainPrefix(a: string, b: string)
    requires '@' !in a
    ensures NeutralizeBroadcast(a + b) == a + NeutralizeBroadcast(b)
    decreases |a|
  {
    if a != [] {
      var s := a + b;
      assert s[0] == a[0] && s[1..] == a[1..] + b;
      assert !StartsWith(s, "@everyone") by { assert |s| >= 9 ==> s[..9][0] == s[0]; }
      assert !StartsWith(s, "@here") by { assert |s| >= 5 ==> s[..5][0] == s[0]; }
      NeutralizeKeepsPlainPrefix(a[1..], b);
      assert a == [a[0]] + a[1..];
    } else {
      assert a + b == b;
    }
  }

  /** A text that does not start with `<` has no mention at its head. */
  lemma NoMentionWithoutLt(s: string)
    requires s != [] && s[0] != '<'
    ensures RoleMentionLen(s) == 0 && UserMentionLen(s) == 0
  {
    assert !StartsWith(s, "<@&") by { assert |s| >= 3 ==> s[..3][0] == s[0]; }
    assert !StartsWith(s, "<@!") by { assert |s| >= 3 ==> s[..3][0] == s[0]; }
    assert !StartsWith(s, "<@") by { assert |s| >= 2 ==> s[..2][0] == s[0]; }
  }

  /** Characters before the first `<` pass through the role pass. */
  lemma {:induction false} RolesKeepPlainPrefix(a: string, b: string)
    requires '<' !in a
    ensures DeleteRoleMentions(a + b) == a + DeleteRoleMentions(b)
    decreases |a|
  {
    if a != [] {
      HeadOfConcat(a, b);
      HeadOfConcat(a, DeleteRoleMentions(b));
      NoMentionWithoutLt(a + b);
      RoleStepPlain(a + b);
      RolesKeepPlainPrefix(a[1..], b);
    } else {
      assert a + b == b;
    }
  }

  /** Without a user mention at its head the user pass keeps the first character. */
  lemma UserStepPlain(s: string)
    requires s != [] && UserMentionLen(s) == 0
    ensures DeleteUserMentions(s) == [s[0]] + DeleteUserMentions(s[1..])
  {
  }

  /** Characters before the first `<` pass through the user-mention pass. */
  lemma {:induction false} UsersKeepPlainPrefix(a: string, b: string)
    requires '<' !in a
    ensures DeleteUserMentions(a + b) == a + DeleteUserMentions(b)
    decreases |a|
  {
    if a != [] {
      HeadOfConcat(a, b);
      HeadOfConcat(a, DeleteUserMentions(b));
      NoMentionWithoutLt(a + b);
      UserStepPlain(a + b);
      UsersKeepPlainPrefix(a[1..], b);
    } else {
      assert a + b == b;
    }
  }

  lemma MentionsKeepPlainPrefix(a: string, b: string)
    requires '<' !in a
    ensures DeleteRoleMentions(a + b) == a + DeleteRoleMentions(b)
    ensures DeleteUserMentions(a + b) == a + DeleteUserMentions(b)
  {
    RolesKeepPlainPrefix(a, b);
    UsersKeepPlainPrefix(a, b);
  }

  // ---------------------------------------------------------------------
  // Positions where no pattern matches are kept
  // ---------------------------------------------------------------------

  /** `@everyone` or `@here` starts at `i`. */
  predicate BroadcastAt(s: string, i: int) {
    0 <= i <= |s| && (StartsWith(s[i..], "@everyone") || StartsWith(s[i..], "@here"))
  }

  /** A role mention starts at `i`. */
  predicate RoleMentionAt(s: string, i: int) {
    0 <= i <= |s| && RoleMentionLen(s[i..]) > 0
  }

  /** A user mention, with or without `!`, starts at `i`. */
  predicate UserMentionAt(s: string, i: int) {
    0 <= i <= |s| && UserMentionLen(s[i..]) > 0
  }

  lemma SuffixOfTail(s: string, j: int)
    requires 0 <= j < |s|
    ensures s[1..][j..] == s[j + 1..]
  {
  }

  /** Without `@everyone` or `@here` at its head the broadcast pass keeps the
      first character, whatever it is. */
  lemma BroadcastStepPlain(s: string)
    requires s != [] && !StartsWith(s, "@everyone") && !StartsWith(s, "@here")
    ensures NeutralizeBroadcast(s) == [s[0]] + NeutralizeBroadcast(s[1..])
  {
  }

  /** The first `k` characters, none of which starts `@everyone` or `@here`,
      pass through the broadcast pass. */
  lemma {:induction false} BroadcastKeepsUnmatchedPrefix(s: string, k: nat)
    requires k <= |s|
    requires forall j :: 0 <= j < k ==> !BroadcastAt(s, j)
    ensures NeutralizeBroadcast(s) == s[..k] + NeutralizeBroadcast(s[k..])
    decreases k
  {
    if k > 0 {
      var t := s[1..];
      forall j | 0 <= j < k - 1
        ensures !BroadcastAt(t, j)
      {
        SuffixOfTail(s, j);
        assert !BroadcastAt(s, j + 1);
      }
      assert s[0..] == s && !BroadcastAt(s, 0);
      BroadcastStepPlain(s);
      BroadcastKeepsUnmatchedPrefix(t, k - 1);
      PrefixAfterHead(s, k, NeutralizeBroadcast(s[k..]));
    } else {
      assert s[..0] == [] && s[0..] == s;
    }
  }

  /** The first `k` characters, none of which starts a role mention, pass
      through the role pass. */
  lemma {:induction false} RolesKeepUnmatchedPrefix(s: string, k: nat)
    requires k <= |s|
    requires forall j :: 0 <= j < k ==> !RoleMentionAt(s, j)
    ensures DeleteRoleMentions(s) == s[..k] + DeleteRoleMentions(s[k..])
    decreases k
  {
    if k > 0 {
      var t := s[1..];
      forall j | 0 <= j < k - 1
        ensures !RoleMentionAt(t, j)
      {
        SuffixOfTail(s, j);
        assert !RoleMentionAt(s, j + 1);
      }
      assert s[0..] == s && !RoleMentionAt(s, 0);
      RoleStepPlain(s);
      RolesKeepUnmatchedPrefix(t, k - 1);
      PrefixAfterHead(s, k, DeleteRoleMentions(s[k..]));
    } else {
      assert s[..0] == [] && s[0..] == s;
    }
  }

  /** The first `k` characters, none of which starts a user mention, pass
      through the user pass. */
  lemma {:induction false} UsersKeepUnmatchedPrefix(s: string, k: nat)
    requires k <= |s|
    requires forall j :: 0 <= j < k ==> !UserMentionAt(s, j)
    ensures DeleteUserMentions(s) == s[..k] + DeleteUserMentions(s[k..])
    decreases k
  {
    if k > 0 {
      var t := s[1..];
      forall j | 0 <= j < k - 1
        ensures !UserMentionAt(t, j)
      {
        SuffixOfTail(s, j);
        assert !UserMentionAt(s, j + 1);
      }
      assert s[0..] == s && !UserMentionAt(s, 0);
      UserStepPlain(s);
      UsersKeepUnmatchedPrefix(t, k - 1);
      PrefixAfterHead(s, k, DeleteUserMentions(s[k..]));
    } else {
      assert s[..0] == [] && s[0..] == s;
    }
  }

  /** Text in which `@everyone` and `@here` start nowhere is left unchanged by
      the broadcast pass: every other `@` is kept. */
  lemma NoBroadcastUnchanged(s: string)
    requires forall j :: 0 <= j < |s| ==> !BroadcastAt(s, j)
    ensures NeutralizeBroadcast(s) == s
  {
    BroadcastKeepsUnmatchedPrefix(s, |s|);
    assert s[..|s|] == s && s[|s|..] == [];
  }

  /** Text in which no role mention starts is left unchanged by the role pass. */
  lemma NoRoleMentionUnchanged(s: string)
    requires forall j :: 0 <= j < |s| ==> !RoleMentionAt(s, j)
    ensures DeleteRoleMentions(s) == s
  {
    RolesKeepUnmatchedPrefix(s, |s|);
    assert s[..|s|] == s && s[|s|..] == [];
  }

  /** Text in which no user mention starts is left unchanged by the user pass. */
  lemma NoUserMentionUnchanged(s: string)
    requires forall j :: 0 <= j < |s| ==> !UserMentionAt(s, j)
    ensures DeleteUserMentions(s) == s
  {
    UsersKeepUnmatchedPrefix(s, |s|);
    assert s[..|s|] == s && s[|s|..] == [];
  }

  /** A text that does not start with `@` starts neither broadcast word. */
  lemma NoBroadcastWithoutAt(s: string)
    requires s == [] || s[0] != '@'
    ensures !StartsWith(s, "@everyone") && !StartsWith(s, "@here")
  {
    assert |s| >= 9 ==> s[..9][0] == s[0];
    assert |s| >= 5 ==> s[..5][0] == s[0];
  }

  /** `<` followed by something other than `@` starts no mention. */
  lemma NoMentionWithoutAt(s: string)
    requires |s| >= 2 && s[1] != '@'
    ensures RoleMentionLen(s) == 0 && UserMentionLen(s) == 0
  {
    assert |s| >= 3 ==> s[..3][1] == s[1];
    assert s[..2][1] == s[1];
  }

  /** `"@alice"` and `"a@b"` pass the broadcast pass unchanged. */
  lemma ScenarioOtherAtKept(s: string)
    requires s == "@alice" || s == "a@b"
    ensures NeutralizeBroadcast(s) == s
  {
    forall j | 0 <= j < |s|
      ensures !BroadcastAt(s, j)
    {
      var x := s[j..];
      if x[0] == '@' {
        assert |x| < 9 && x[..|x|] == x;
        assert |x| >= 5 ==> x[..5][1] == x[1] && x[1] == 'a';
      } else {
        NoBroadcastWithoutAt(x);
      }
    }
    NoBroadcastUnchanged(s);
  }

  /** `"I <3 you"` passes both mention passes unchanged. */
  lemma ScenarioHeartKept(s: string)
    requires s == "I <3 you"
    ensures DeleteRoleMentions(s) == s && DeleteUserMentions(s) == s
  {
    forall j | 0 <= j < |s|
      ensures !RoleMentionAt(s, j) && !UserMentionAt(s, j)
    {
      var x := s[j..];
      if j == 2 {
        assert x[1] == '3';
        NoMentionWithoutAt(x);
      } else {
        assert x[0] == s[j] && s[j] != '<';
        NoMentionWithoutLt(x);
      }
    }
    NoRoleMentionUnchanged(s);
    NoUserMentionUnchanged(s);
  }

  /** Without a role mention at its head the role pass keeps the first character. */
  lemma RoleStepPlain(s: string)
    requires s != [] && RoleMentionLen(s) == 0
    ensures DeleteRoleMentions(s) == [s[0]] + DeleteRoleMentions(s[1..])
  {
  }

  /** `<@&` followed by something other than a digit is not a role mention. */
  lemma RoleOpeningWithoutDigits(t: string)
    requires t != [] && !IsDigit(t[0])
    ensures RoleMentionLen("<@&" + t) == 0
  {
    var s := "<@&" + t;
    assert s[3..] == t;
  }

  /** Digits and `>` hold no `<`. */
  lemma DigitsCloseWithoutLt(e: string)
    requires forall i :: 0 <= i < |e| ==> IsDigit(e[i])
    ensures '<' !in e + ">"
  {
    var rest := e + ">";
    forall i | 0 <= i < |rest| ensures rest[i] != '<' {
      if i < |e| { assert rest[i] == e[i]; }
    }
  }

  /** The role pass scans once: a role mention written inside the opening of
      another one is deleted and leaves a role mention behind, exactly as a
      single global `replace` does. */
  lemma RoleMentionRebuilt(d: string, e: string)
    requires d != [] && forall i :: 0 <= i < |d| ==> IsDigit(d[i])
    requires e != [] && forall i :: 0 <= i < |e| ==> IsDigit(e[i])
    ensures var r := DeleteRoleMentions("<@&" + ("<@&" + d + ">") + e + ">");
      r == "<@&" + e + ">" && RoleMentionLen(r) == |r|
  {
    var rest := e + ">";
    var s := "<@&" + ("<@&" + d + ">") + e + ">";
    RoleOuterKept(d, rest);
    assert s == "<@&" + ("<@&" + d + ">" + rest);
    DigitsCloseWithoutLt(e);
    RolesKeepPlainPrefix(rest, []);
    assert rest + [] == rest;
    MentionAtHead("<@&", e, []);
    assert "<@&" + e + ">" + [] == "<@&" + rest;
  }

  /** The outer opening is kept and the inner mention deleted. */
  lemma RoleOuterKept(d: string, rest: string)
    requires d != [] && forall i :: 0 <= i < |d| ==> IsDigit(d[i])
    ensures DeleteRoleMentions("<@&" + ("<@&" + d + ">" + rest)) == "<@&" + DeleteRoleMentions(rest)
  {
    var t := "<@&" + d + ">" + rest;
    RoleOpeningKept(t);
    RoleMentionDeleted(d, rest);
  }

  /** `<@&` followed by something other than a digit passes through. */
  lemma RoleOpeningKept(t: string)
    requires t != [] && !IsDigit(t[0])
    ensures DeleteRoleMentions("<@&" + t) == "<@&" + DeleteRoleMentions(t)
  {
    RoleOpeningWithoutDigits(t);
    RolesKeepUnmatchedHead("<@&", t);
  }

  /** A prefix that is not the start of a role mention and has no `<` after
      its first character passes through the role pass. */
  lemma RolesKeepUnmatchedHead(p: string, t: string)
    requires p != [] && '<' !in p[1..] && RoleMentionLen(p + t) == 0
    ensures DeleteRoleMentions(p + t) == p + DeleteRoleMentions(t)
  {
    HeadOfConcat(p, t);
    HeadOfConcat(p, DeleteRoleMentions(t));
    RoleStepPlain(p + t);
    RolesKeepPlainPrefix(p[1..], t);
  }

  lemma HeadOfConcat(p: string, t: string)
    requires p != []
    ensures (p + t)[0] == p[0] && (p + t)[1..] == p[1..] + t
    ensures p + t == [p[0]] + (p[1..] + t)
  {
  }

  /** `"<@&<@&1>2>"` comes out of the role pass as the mention `"<@&2>"`. */
  lemma ScenarioRoleMentionRebuilt(s: string)
    requires s == "<@&<@&1>2>"
    ensures DeleteRoleMentions(s) == "<@&2>"
  {
    var d, e := "1", "2";
    assert s == "<@&" + ("<@&" + d + ">") + e + ">";
    RoleMentionRebuilt(d, e);
  }

  /** Characters that are not markdown pass through the markdown pass. */
  lemma {:induction false} MarkdownKeepsPlainPrefix(a: string, b: string)
    requires forall c :: c in a ==> !IsMarkdown(c)
    ensures StripMarkdown(a + b) == a + StripMarkdown(b)
    decreases |a|
  {
    if a != [] {
      assert a == [a[0]] + a[1..];
      MarkdownKeepsPlainPrefix(a[1..], b);
      assert (a + b)[1..] == a[1..] + b;
      assert (a + b)[0] == a[0];
    } else {
      assert a + b == b;
    }
  }

  /** Text without CR or LF passes through the newline pass. */
  lemma {:induction false} CollapseKeepsPlain(a: string, inRun: bool)
    requires '\r' !in a && '\n' !in a && (inRun ==> a != [])
    ensures CollapseNewlines(a, inRun) == a
    decreases |a|
  {
    if a != [] {
      assert a[1..] == [] || '\r' !in a[1..];
      CollapseKeepsPlain(a[1..], false);
      assert a == [a[0]] + a[1..];
    }
  }

  /** Text without CR or LF in front of the newline pass is copied unchanged,
      and the pass goes on after it as if it started there. */
  lemma {:induction false} CollapsePlainPrefix(a: string, x: string)
    requires '\r' !in a && '\n' !in a
    ensures CollapseNewlines(a + x, false) == a + CollapseNewlines(x, false)
    decreases |a|
  {
    if a == [] {
      assert a + x == x;
    } else {
      assert (a + x)[0] == a[0] && (a + x)[1..] == a[1..] + x;
      assert a[1..] == [] || '\r' !in a[1..];
      CollapsePlainPrefix(a[1..], x);
    }
  }

  /** A non-empty run of CR and LF that is not followed by another one gives
      one space, or nothing when a run was already open. */
  lemma {:induction false} CollapseRun(r: string, b: string, inRun: bool)
    requires r != [] && forall i :: 0 <= i < |r| ==> IsBreak(r[i])
    requires b == [] || !IsBreak(b[0])
    ensures CollapseNewlines(r + b, inRun) == (if inRun then "" else " ") + CollapseNewlines(b, false)
    decreases |r|
  {
    assert (r + b)[0] == r[0] && (r + b)[1..] == r[1..] + b;
    if r[1..] == [] {
      assert r[1..] + b == b;
    } else {
      CollapseRun(r[1..], b, true);
    }
  }

  /** Each maximal run of CR and LF becomes exactly one space: plain text,
      then a run, then text that does not start with CR or LF. */
  lemma CollapseRunToOneSpace(a: string, r: string, b: string)
    requires '\r' !in a && '\n' !in a
    requires r != [] && forall i :: 0 <= i < |r| ==> IsBreak(r[i])
    requires b == [] || !IsBreak(b[0])
    ensures CollapseNewlines(a + r + b, false) == a + " " + CollapseNewlines(b, false)
  {
    assert a + r + b == a + (r + b);
    CollapsePlainPrefix(a, r + b);
    CollapseRun(r, b, false);
  }

  /** `"a\r\n\nb"` becomes `"a b"`. */
  lemma ScenarioRunCollapses(s: string)
    requires s == "a\r\n\nb"
    ensures CollapseNewlines(s, false) == "a b"
  {
    var a, r, b := "a", "\r\n\n", "b";
    assert s == a + r + b;
    CollapseRunToOneSpace(a, r, b);
    CollapseKeepsPlain(b, false);
  }

  /** `@everyone` and `@here` at the scan position lose the `@`. */
  lemma BroadcastLosesAt(word: string, rest: string)
    requires word == "everyone" || word == "here"
    ensures NeutralizeBroadcast("@" + word + rest) == word + NeutralizeBroadcast(rest)
  {
    if word == "everyone" {
      WordLosesAt("@everyone", rest);
    } else {
      var s := "@here" + rest;
      assert s[1] == 'h' && (|s| >= 9 ==> s[..9][1] == s[1]);
      WordLosesAt("@here", rest);
    }
  }

  /** A matched broadcast word `at` at the head loses its `@`. */
  lemma WordLosesAt(at: string, rest: string)
    requires at == "@everyone" || at == "@here"
    requires at == "@here" ==> !StartsWith(at + rest, "@everyone")
    ensures NeutralizeBroadcast(at + rest) == at[1..] + NeutralizeBroadcast(rest)
  {
    var s := at + rest;
    assert s[..|at|] == at && s[|at|..] == rest && s[1..|at|] == at[1..];
  }

  /** Sanitizing text that has no CR, LF, `@`, `<` or markdown character and
      no surrounding whitespace changes nothing. */
  lemma PlainTextUnchanged(text: string, policy: MentionPolicy)
    requires '\r' !in text && '\n' !in text && '@' !in text && '<' !in text
    requires forall i :: 0 <= i < |text| ==> !IsMarkdown(text[i])
    requires text == [] || (!IsJsSpace(text[0]) && !IsJsSpace(text[|text| - 1]))
    ensures SanitizeDiscordToMc(text, policy) == text
  {
    CollapseKeepsPlain(text, false);
    NeutralizeKeepsPlainPrefix(text, "");
    MentionsKeepPlainPrefix(text, "");
    MarkdownKeepsPlainPrefix(text, "");
    assert text + "" == text;
    TrimOfTrimmed(text);
  }

  /** Once nothing is left for the mention passes, sanitizing is the markdown
      pass and the trim applied to what the broadcast pass leaves. */
  lemma SanitizeAfterBroadcast(text: string, policy: MentionPolicy)
    requires '\r' !in text && '\n' !in text && '<' !in NeutralizeBroadcast(text)
    ensures SanitizeDiscordToMc(text, policy) == Trim(StripMarkdown(NeutralizeBroadcast(text)))
  {
    CollapseKeepsPlain(text, false);
    var t := NeutralizeBroadcast(text);
    MentionsKeepPlainPrefix(t, "");
    assert t + "" == t;
  }

  /** Text with no markdown character and no whitespace at its ends passes
      the markdown pass and the trim unchanged. */
  lemma QuietTail(t: string)
    requires forall c :: c in t ==> !IsMarkdown(c)
    requires t == [] || (!IsJsSpace(t[0]) && !IsJsSpace(t[|t| - 1]))
    ensures StripMarkdown(t) == t && Trim(t) == t
  {
    MarkdownKeepsPlainPrefix(t, "");
    assert t + "" == t;
    TrimOfTrimmed(t);
  }

  lemma EveryoneText(e: string)
    requires e == "@everyone"
    ensures |e| == 9 && StartsWith(e, "@everyone") && e == [e[0]] + e[1..9] && e[9..] == []
    ensures forall c :: c in e ==> !IsMarkdown(c)
    ensures !IsJsSpace(e[0]) && !IsJsSpace(e[8]) && '<' !in e
  {
  }

  lemma DoubleAtText(text: string)
    requires text == "@@everyone"
    ensures '\r' !in text && '\n' !in text && text[0] == '@' && text[1] == '@'
    ensures text[1..] == "@everyone"
  {
  }

  /** The broadcast pass is a single pass: for "@@everyone" it drops the
      second `@` and leaves "@everyone". */
  lemma DoubleAtPass(text: string)
    requires text == "@@everyone"
    ensures NeutralizeBroadcast(text) == text[1..]
  {
    DoubleAtText(text);
    var e := text[1..];
    EveryoneText(e);
    assert !StartsWith(text, "@everyone") by { assert text[..9][1] == text[1]; }
    assert !StartsWith(text, "@here") by { assert text[..5][1] == text[1]; }
    assert NeutralizeBroadcast(text) == [text[0]] + NeutralizeBroadcast(e);
    assert NeutralizeBroadcast(e) == e[1..9] + NeutralizeBroadcast(e[9..]);
  }

  /** One pass only: "@@everyone" still ends as "@everyone". */
  lemma DoubleAtSurvives(text: string, policy: MentionPolicy)
    requires text == "@@everyone"
    ensures SanitizeDiscordToMc(text, policy) == "@everyone"
  {
    DoubleAtText(text);
    DoubleAtPass(text);
    EveryoneText(text[1..]);
    SanitizeAfterBroadcast(text, policy);
    QuietTail(text[1..]);
  }

  /** Text that no pass changes inside: no line break, `@`, `<` or
      markdown character. */
  predicate QuietText(w: string) {
    '\r' !in w && '\n' !in w && '@' !in w && '<' !in w && forall x :: x in w ==> !IsMarkdown(x)
  }

  /** Text that neither starts nor ends with whitespace. */
  predicate TrimmedEnds(w: string) {
    w == [] || (!IsJsSpace(w[0]) && !IsJsSpace(w[|w| - 1]))
  }

  lemma ShieldNeutralized(c: char, w: string)
    requires IsMarkdown(c) && QuietText(w)
    ensures NeutralizeBroadcast("@" + [c] + w) == "@" + [c] + w
  {
    var tail := [c] + w;
    var s := "@" + tail;
    assert s == "@" + [c] + w;
    assert s[1] == c && s[1..] == tail;
    assert !StartsWith(s, "@everyone") by { assert |s| >= 9 ==> s[..9][1] == s[1]; }
    assert !StartsWith(s, "@here") by { assert |s| >= 5 ==> s[..5][1] == s[1]; }
    NeutralizeKeepsPlainPrefix(tail, "");
    assert tail + "" == tail;
  }

  lemma ShieldStripped(c: char, w: string)
    requires IsMarkdown(c) && QuietText(w)
    ensures StripMarkdown("@" + [c] + w) == "@" + w
  {
    var s := "@" + [c] + w;
    assert s[0] == '@' && s[1] == c && s[1..][1..] == w;
    MarkdownKeepsPlainPrefix(w, "");
    assert w + "" == w;
  }

  /** A markdown character between `@` and a word hides the word from the
      broadcast pass and is deleted afterwards, so the `@` stays. */
  lemma MarkdownShieldsBroadcast(c: char, w: string, policy: MentionPolicy, s: string)
    requires IsMarkdown(c) && w != [] && QuietText(w) && TrimmedEnds(w)
    requires s == "@" + [c] + w
    ensures SanitizeDiscordToMc(s, policy) == "@" + w
  {
    ShieldNeutralized(c, w);
    ShieldStripped(c, w);
    assert ("@" + w)[|w|] == w[|w| - 1];
    assert w[|w| - 1] in w;
    QuietTail("@" + w);
    SanitizeAfterBroadcast(s, policy);
  }

  lemma EveryoneWord(w: string)
    requires w == "everyone"
    ensures w != [] && QuietText(w) && TrimmedEnds(w)
  {
  }

  lemma StarredText(text: string)
    requires text == "@*everyone"
    ensures text == "@" + ['*'] + text[2..] && text[2..] == "everyone"
    ensures "@" + text[2..] == "@everyone"
  {
  }

  /** Markdown stripping runs after the broadcast pass, so "@*everyone" ends
      as "@everyone". */
  lemma StarredAtSurvives(text: string, policy: MentionPolicy)
    requires text == "@*everyone"
    ensures SanitizeDiscordToMc(text, policy) == "@everyone"
  {
    StarredText(text);
    EveryoneWord(text[2..]);
    MarkdownShieldsBroadcast('*', text[2..], policy, text);
  }

  lemma MentionNotBroadcast(w: string, d: string)
    requires QuietText(w)
    requires d != [] && forall i :: 0 <= i < |d| ==> IsDigit(d[i])
    ensures var t := w + " " + ("<@" + d + ">"); NeutralizeBroadcast(t) == t
  {
    var m := "<@" + d + ">";
    var t := w + " " + m;
    var at := m[1..];
    assert m == [m[0]] + at && at[0] == '@' && at[1] == d[0];
    assert t == (w + " <") + at;
    NeutralizeKeepsPlainPrefix(w + " <", at);
    assert !StartsWith(at, "@everyone") by { assert |at| >= 9 ==> at[..9][1] == at[1]; }
    assert !StartsWith(at, "@here") by { assert |at| >= 5 ==> at[..5][1] == at[1]; }
    NeutralizeKeepsPlainPrefix(at[1..], "");
    assert at[1..] + "" == at[1..] && at == [at[0]] + at[1..];
  }

  lemma MentionNotRole(w: string, d: string)
    requires QuietText(w)
    requires d != [] && forall i :: 0 <= i < |d| ==> IsDigit(d[i])
    ensures var t := w + " " + ("<@" + d + ">"); DeleteRoleMentions(t) == t
  {
    var m := "<@" + d + ">";
    RolesKeepPlainPrefix(w + " ", m);
    assert !StartsWith(m, "<@&") by { assert m[..3][2] == m[2] == d[0]; }
    var at := m[1..];
    assert m == [m[0]] + at;
    RolesKeepPlainPrefix(at, "");
    assert at + "" == at;
  }

  lemma MentionUserDeleted(w: string, d: string)
    requires QuietText(w)
    requires d != [] && forall i :: 0 <= i < |d| ==> IsDigit(d[i])
    ensures DeleteUserMentions(w + " " + ("<@" + d + ">")) == w + " "
  {
    var m := "<@" + d + ">";
    UsersKeepPlainPrefix(w + " ", m);
    UserMentionDeleted(false, d, []);
    assert m + [] == m && w + " " + [] == w + " ";
  }

  /** Sanitizing as the composition of its passes, stage by stage. */
  lemma SanitizeStages(t: string, policy: MentionPolicy, n: string, u: string, m: string, r: string)
    requires CollapseNewlines(t, false) == t && NeutralizeBroadcast(t) == n
    requires DeleteRoleMentions(n) == n && ApplyUserPolicy(n, policy) == u
    requires StripMarkdown(u) == m && Trim(m) == r
    ensures SanitizeDiscordToMc(t, policy) == r
  {
  }

  /** A user mention after a word: the "none" policy deletes it, and the
      trim then drops the space before it. */
  lemma MentionDeletedAfterWord(w: string, d: string, t: string)
    requires w != [] && QuietText(w) && TrimmedEnds(w)
    requires d != [] && forall i :: 0 <= i < |d| ==> IsDigit(d[i])
    requires t == w + " " + ("<@" + d + ">")
    ensures SanitizeDiscordToMc(t, MentionNone) == w
  {
    assert '\r' !in t && '\n' !in t;
    CollapseKeepsPlain(t, false);
    MentionNotBroadcast(w, d);
    MentionNotRole(w, d);
    MentionUserDeleted(w, d);
    var u := w + " ";
    MarkdownKeepsPlainPrefix(u, "");
    assert u + "" == u;
    TrimDropsTrailing(w, " ");
    SanitizeStages(t, MentionNone, t, u, u, w);
  }

  lemma MentionHasNoMarkdown(w: string, d: string)
    requires QuietText(w) && forall i :: 0 <= i < |d| ==> IsDigit(d[i])
    ensures forall x :: x in w + " " + ("<@" + d + ">") ==> !IsMarkdown(x)
  {
    forall x | x in d
      ensures !IsMarkdown(x)
    {
      var i :| 0 <= i < |d| && d[i] == x;
    }
  }

  /** The "users" and "all" policies keep a user mention after a word. */
  lemma MentionKeptAfterWord(w: string, d: string, t: string, policy: MentionPolicy)
    requires w != [] && QuietText(w) && TrimmedEnds(w) && policy != MentionNone
    requires d != [] && forall i :: 0 <= i < |d| ==> IsDigit(d[i])
    requires t == w + " " + ("<@" + d + ">")
    ensures SanitizeDiscordToMc(t, policy) == t
  {
    assert '\r' !in t && '\n' !in t;
    CollapseKeepsPlain(t, false);
    MentionNotBroadcast(w, d);
    MentionNotRole(w, d);
    MentionHasNoMarkdown(w, d);
    assert t[0] == w[0] && t[|t| - 1] == '>';
    QuietTail(t);
    SanitizeStages(t, policy, t, t, t, t);
  }

  lemma UserMentionText(text: string)
    requires text == "hi <@123>"
    ensures text == text[..2] + " " + ("<@" + text[5..8] + ">")
    ensures text[..2] == "hi" && text[5..8] == "123"
  {
  }

  lemma HiAndDigits(w: string, d: string)
    requires w == "hi" && d == "123"
    ensures w != [] && QuietText(w) && TrimmedEnds(w)
    ensures d != [] && forall i :: 0 <= i < |d| ==> IsDigit(d[i])
  {
  }

  /** "hi <@123>": the "none" policy deletes the mention (and the trim then
      drops the space), the "users" policy keeps it. */
  lemma ScenarioUserMention(text: string)
    requires text == "hi <@123>"
    ensures SanitizeDiscordToMc(text, MentionNone) == "hi"
    ensures SanitizeDiscordToMc(text, MentionUsers) == text
  {
    UserMentionText(text);
    HiAndDigits(text[..2], text[5..8]);
    MentionDeletedAfterWord(text[..2], text[5..8], text);
    MentionKeptAfterWord(text[..2], text[5..8], text, MentionUsers);
  }
}
