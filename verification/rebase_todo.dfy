/** `edit_todo.py`, the editor git runs on an interactive-rebase to-do list:
    every `pick` line whose message starts with a known type word but is not
    yet in `type: message` form is kept and followed by an `exec` line that
    amends the commit with the conventional message. Lines are strings with
    their line terminator, as `readlines` gives them; reading and writing the
    file are not modelled. */
module RebaseTodo {
  import opened Wrappers
  import opened Seqs
  import opened Text

  /** Python's `str.strip()`. */
  function Strip(s: string): (r: string)
    ensures |r| <= |s|
    ensures NoSpaceAtEnds(r, IsPySpace)
    ensures SpaceBound(s, r, IsPySpace)
    ensures r == [] <==> AllSpace(s, IsPySpace)
  {
    Trim(s, IsPySpace)
  }

  function IsSpaceChar(c: char): bool { c == ' ' }

  predicate NoSpace(s: string) {
    forall i :: 0 <= i < |s| ==> s[i] != ' '
  }

  /** `s.split(' ', 2)`: cut at the first two single spaces, keeping the
      rest, further spaces included, in the last part. */
  function SplitSpace2(s: string): (parts: seq<string>)
    ensures 1 <= |parts| <= 3
    ensures forall i :: 0 <= i < |parts| - 1 ==> NoSpace(parts[i])
    ensures |parts| < 3 ==> NoSpace(parts[|parts| - 1])
    ensures |parts| == 1 ==> parts[0] == s
    ensures |parts| == 2 ==> parts[0] + " " + parts[1] == s
    ensures |parts| == 3 ==> parts[0] + " " + parts[1] + " " + parts[2] == s
  {
    match FirstIndex(s, IsSpaceChar)
    case None => [s]
    case Some(i) =>
      var rest := s[i + 1..];
      SplitAround(s, i);
      match FirstIndex(rest, IsSpaceChar)
      case None => [s[..i], rest]
      case Some(j) =>
        SplitAround(rest, j);
        JoinTwice(s, s[..i], rest, rest[..j], rest[j + 1..], " ");
        [s[..i], rest[..j], rest[j + 1..]]
  }

  /** A non-empty run of lower-case ASCII letters, like every type name. */
  predicate LowerWord(t: string) {
    |t| >= 1 && forall i :: 0 <= i < |t| ==> 'a' <= t[i] <= 'z'
  }

  /** The type-word tests, in the order the script makes them: the first
      word the message starts with chooses the conventional type. */
  function CommitType(msg: string): (r: Option<string>)
    ensures r.Some? ==> r.value in ["feat", "chore", "build", "fix", "refactor", "style"]
    ensures r.Some? ==> LowerWord(r.value)
  {
    if StartsWith(msg, "功能") || StartsWith(msg, "feat") then Some("feat")
    else if StartsWith(msg, "配置") || StartsWith(msg, "chore") then Some("chore")
    else if StartsWith(msg, "构建") || StartsWith(msg, "build") then Some("build")
    else if StartsWith(msg, "修复") || StartsWith(msg, "fix") then Some("fix")
    else if StartsWith(msg, "优化") || StartsWith(msg, "refactor") then Some("refactor")
    else if StartsWith(msg, "清理") then Some("chore")
    else if StartsWith(msg, "新特性") then Some("feat")
    else if StartsWith(msg, "design") then Some("style")
    else None
  }

  /** The words the type tests look for, in the order the script tests
      them. */
  const TypeWords: seq<string> :=
    ["功能", "feat", "配置", "chore", "构建", "build", "修复", "fix",
     "优化", "refactor", "清理", "新特性", "design"]

  /** A message gets a type exactly when it starts with one of the type
      words. */
  lemma CommitTypeExactly(msg: string)
    ensures CommitType(msg).Some? <==> exists w :: w in TypeWords && StartsWith(msg, w)
  {
    if CommitType(msg).Some? {
      var v := CommitTypeWord(msg);
      assert v in TypeWords && StartsWith(msg, v);
    } else {
      forall i | 0 <= i < |TypeWords|
        ensures !StartsWith(msg, TypeWords[i])
      {
      }
    }
  }

  /** Every type word is an alternative of the old-prefix pattern. */
  lemma TypeWordIsPrefixWord(w: string)
    requires w in TypeWords
    ensures w in OldPrefixes
  {
    forall i | 0 <= i < |TypeWords|
      ensures TypeWords[i] in OldPrefixes
    {
    }
  }

  /** The type a message gets is the one its type word stands for, whichever
      type word it starts with. */
  lemma CommitTypeOfWord(msg: string, w: string)
    requires w in TypeWords && StartsWith(msg, w)
    ensures CommitType(msg) == Some(TypeOfWord(w))
  {
    CommitTypeExactly(msg);
    var v := CommitTypeWord(msg);
    TypeWordIsPrefixWord(v);
    TypeWordIsPrefixWord(w);
    UniquePrefix(msg, v, w);
  }

  /** The alternatives of the old-prefix pattern, in pattern order. */
  const OldPrefixes: seq<string> :=
    ["功能", "配置", "构建", "修复", "优化", "清理", "新特性",
     "design", "feat", "chore", "build", "fix", "refactor", "style"]

  /** The alternative of `^(功能|配置|…|refactor|style)` that matches: the
      first, in pattern order, that the message starts with. */
  function OldPrefixWord(msg: string): (r: Option<string>)
    ensures r.Some? ==> StartsWith(msg, r.value)
  {
    if StartsWith(msg, "功能") then Some("功能")
    else if StartsWith(msg, "配置") then Some("配置")
    else if StartsWith(msg, "构建") then Some("构建")
    else if StartsWith(msg, "修复") then Some("修复")
    else if StartsWith(msg, "优化") then Some("优化")
    else if StartsWith(msg, "清理") then Some("清理")
    else if StartsWith(msg, "新特性") then Some("新特性")
    else if StartsWith(msg, "design") then Some("design")
    else if StartsWith(msg, "feat") then Some("feat")
    else if StartsWith(msg, "chore") then Some("chore")
    else if StartsWith(msg, "build") then Some("build")
    else if StartsWith(msg, "fix") then Some("fix")
    else if StartsWith(msg, "refactor") then Some("refactor")
    else if StartsWith(msg, "style") then Some("style")
    else None
  }

  /** The pattern matches exactly when the message starts with one of its
      alternatives. */
  lemma OldPrefixWordMatches(msg: string)
    ensures OldPrefixWord(msg).Some? ==> OldPrefixWord(msg).value in OldPrefixes
    ensures OldPrefixWord(msg).None? <==> forall w :: w in OldPrefixes ==> !StartsWith(msg, w)
  {
  }

  /** The type an old prefix word stands for; "style" stands for itself. */
  function TypeOfWord(w: string): string {
    if w == "功能" || w == "feat" || w == "新特性" then "feat"
    else if w == "配置" || w == "chore" || w == "清理" then "chore"
    else if w == "构建" || w == "build" then "build"
    else if w == "修复" || w == "fix" then "fix"
    else if w == "优化" || w == "refactor" then "refactor"
    else "style"
  }

  /** `re.sub(r'^(功能|…|style)[:：]?\s*', '', msg)`: the matching word is
      cut off, then one ASCII or full-width colon if there is one, then the
      whitespace that follows. Without a matching word nothing changes. */
  function StripOldPrefix(msg: string): (r: string)
    ensures OldPrefixWord(msg).None? ==> r == msg
    ensures OldPrefixWord(msg).Some? ==> StrippedAs(msg, OldPrefixWord(msg).value, r)
  {
    var word := OldPrefixWord(msg);
    if word.None? then msg else StripWord(msg, word.value)
  }

  /** `[:：]`: an ASCII or a full-width colon. */
  predicate IsColon(c: char) {
    c == ':' || c == '：'
  }

  /** Text that `[:：]?\s*` matches whole: an optional colon, then only
      whitespace. */
  predicate ColonThenSpace(s: string) {
    if s != [] && IsColon(s[0]) then AllSpace(s[1..], IsPySpace) else AllSpace(s, IsPySpace)
  }

  /** `r` is what is left of `msg` once `^w[:：]?\s*` is cut off: `msg` is
      `w`, then text that `[:：]?\s*` matches, then `r`. The match is greedy:
      a colon right after `w` is always taken, and `r` does not start with
      whitespace. */
  predicate StrippedAs(msg: string, w: string, r: string) {
    && |w| + |r| <= |msg| && msg[..|w|] == w && msg[|msg| - |r|..] == r
    && ColonThenSpace(msg[|w|..|msg| - |r|])
    && (|w| < |msg| && IsColon(msg[|w|]) ==> |w| + |r| < |msg|)
    && (r == [] || !IsPySpace(r[0]))
  }

  /** The greedy match leaves a single possible rest. */
  lemma StrippedAsUnique(msg: string, w: string, r1: string, r2: string)
    requires StrippedAs(msg, w, r1) && StrippedAs(msg, w, r2)
    ensures r1 == r2
  {
    NoLongerRest(msg, w, r1, r2);
    NoLongerRest(msg, w, r2, r1);
  }

  lemma NoLongerRest(msg: string, w: string, r1: string, r2: string)
    requires StrippedAs(msg, w, r1) && StrippedAs(msg, w, r2)
    ensures |r1| <= |r2|
  {
    if |r1| > |r2| {
      var k := |msg| - |r1|;
      if !(k == |w| && IsColon(msg[k])) {
        CutIsSpace(msg, w, r2, k);
      }
      assert false;
    }
  }

  /** Inside the cut text, every character but a leading colon is
      whitespace. */
  lemma CutIsSpace(msg: string, w: string, r: string, j: nat)
    requires StrippedAs(msg, w, r) && |w| <= j < |msg| - |r|
    requires j > |w| || !IsColon(msg[j])
    ensures IsPySpace(msg[j])
  {
    var cut := msg[|w|..|msg| - |r|];
    assert cut[j - |w|] == msg[j];
    if cut != [] && IsColon(cut[0]) {
      assert cut[1..][j - |w| - 1] == msg[j];
    }
  }

  /** `msg` split as the word, an optional colon, whitespace and the rest,
      with the colon present whenever the text after the word starts with
      one, is stripped to that rest. */
  lemma StrippedOfParts(msg: string, w: string, c: string, sp: string, r: string)
    requires msg == w + c + sp + r
    requires c == [] || (|c| == 1 && IsColon(c[0]))
    requires c == [] ==> sp + r == [] || !IsColon((sp + r)[0])
    requires AllSpace(sp, IsPySpace)
    requires r == [] || !IsPySpace(r[0])
    ensures StrippedAs(msg, w, r)
  {
    var k := |msg| - |r|;
    ConcatAssoc(w, c, sp);
    ConcatAssoc(w, c + sp, r);
    assert msg[..|w|] == w && msg[k..] == r && msg[|w|..k] == c + sp;
    if c != [] {
      assert (c + sp)[1..] == sp;
    } else {
      assert c + sp == sp;
      if |w| < |msg| {
        assert msg[|w|] == (sp + r)[0];
      }
    }
  }

  /** Cutting a word the message starts with, an optional colon and the
      whitespace after them. */
  function StripWord(msg: string, w: string): (r: string)
    requires StartsWith(msg, w)
    ensures StrippedAs(msg, w, r)
  {
    var rest := msg[|w|..];
    var afterColon := DropColon(rest);
    var r := TrimStart(afterColon, IsPySpace);
    StripWordCut(msg, w, rest, afterColon, r);
    r
  }

  /** The facts `StripWord` rests on, from what `DropColon` and `TrimStart`
      promise. */
  lemma StripWordCut(msg: string, w: string, rest: string, a: string, r: string)
    requires StartsWith(msg, w) && rest == msg[|w|..]
    requires |a| <= |rest| && rest == rest[..|rest| - |a|] + a && |rest| - |a| <= 1
    requires |a| + 1 == |rest| <==> rest != [] && IsColon(rest[0])
    requires |r| <= |a| && r == a[|a| - |r|..] && (r == [] || !IsPySpace(r[0]))
    requires forall i :: 0 <= i < |a| - |r| ==> IsPySpace(a[i])
    ensures StrippedAs(msg, w, r)
  {
    var c, sp := rest[..|rest| - |a|], a[..|a| - |r|];
    SplitAt(a, |a| - |r|);
    SplitAt(msg, |w|);
    assert AllSpace(sp, IsPySpace);
    ConcatAssoc(w, c, a);
    ConcatAssoc(w + c, sp, r);
    StrippedOfParts(msg, w, c, sp, r);
  }

  /** `[:：]?`: one ASCII or full-width colon, if the text starts with one. */
  function DropColon(s: string): (r: string)
    ensures |r| <= |s| && s == s[..|s| - |r|] + r && |s| - |r| <= 1
    ensures |r| + 1 == |s| <==> s != [] && IsColon(s[0])
  {
    if s != [] && IsColon(s[0]) then s[1..] else s
  }

  /** Whether `msg` already matches `^[a-z]+\(?.*\)?:\s`: a lower-case ASCII
      letter, then a colon followed by whitespace, with no line feed between
      (the `.` of the pattern does not match one; the optional parentheses
      and further letters are absorbed by `.*`). */
  predicate IsConventional(msg: string) {
    |msg| >= 1 && 'a' <= msg[0] <= 'z'
    && exists k :: 1 <= k && k + 1 < |msg| && ColonSpaceAt(msg, k) && NoLineFeed(msg, 1, k)
  }

  predicate ColonSpaceAt(msg: string, k: nat)
    requires k + 1 < |msg|
  {
    msg[k] == ':' && IsPySpace(msg[k + 1])
  }

  predicate NoLineFeed(msg: string, from: nat, to: nat)
    requires from <= to <= |msg|
  {
    forall i :: from <= i < to ==> msg[i] != '\n'
  }

  /** The matcher run left to right, as the regular-expression engine
      would: look for `:` and whitespace from index `j` on, giving up at
      the first line feed. */
  function ScanColon(msg: string, j: nat): bool
    requires j <= |msg|
    decreases |msg| - j
  {
    if j + 1 >= |msg| then false
    else if msg[j] == ':' && IsPySpace(msg[j + 1]) then true
    else if msg[j] == '\n' then false
    else ScanColon(msg, j + 1)
  }

  lemma {:induction false} ScanColonFinds(msg: string, j: nat)
    requires j <= |msg|
    ensures ScanColon(msg, j) <==>
      exists k :: j <= k && k + 1 < |msg| && ColonSpaceAt(msg, k) && NoLineFeed(msg, j, k)
    decreases |msg| - j
  {
    if j + 1 >= |msg| {
    } else if msg[j] == ':' && IsPySpace(msg[j + 1]) {
      assert ColonSpaceAt(msg, j) && NoLineFeed(msg, j, j);
    } else if msg[j] == '\n' {
      forall k | j <= k && k + 1 < |msg| && ColonSpaceAt(msg, k)
        ensures !NoLineFeed(msg, j, k)
      {
        assert k != j;
        assert msg[j] == '\n';
      }
    } else {
      ScanColonFinds(msg, j + 1);
      if ScanColon(msg, j + 1) {
        var k :| j + 1 <= k && k + 1 < |msg| && ColonSpaceAt(msg, k) && NoLineFeed(msg, j + 1, k);
        assert NoLineFeed(msg, j, k);
      }
      forall k | j <= k && k + 1 < |msg| && ColonSpaceAt(msg, k) && NoLineFeed(msg, j, k)
        ensures ScanColon(msg, j + 1)
      {
        assert k != j;
        assert NoLineFeed(msg, j + 1, k);
      }
    }
  }

  /** The left-to-right matcher decides exactly the pattern. */
  function MatchesConventional(msg: string): (r: bool)
    ensures r <==> IsConventional(msg)
  {
    if |msg| >= 1 && 'a' <= msg[0] <= 'z' then
      ScanColonFinds(msg, 1);
      ScanColon(msg, 1)
    else false
  }

  /** The conventional message for a `pick` line, when the line is to be
      rewritten: the line starts with `pick `, its stripped text has a
      message field, the message starts with a type word and is not already
      conventional. */
  function NewMessage(line: string): (r: Option<string>)
    ensures !StartsWith(line, "pick ") ==> r.None?
    ensures r.Some? ==>
      var parts := SplitSpace2(Strip(line));
      |parts| == 3 && CommitType(parts[2]).Some? && !IsConventional(parts[2])
      && r.value == CommitType(parts[2]).value + ": " + StripOldPrefix(parts[2])
  {
    if !StartsWith(line, "pick ") then None
    else
      var parts := SplitSpace2(Strip(line));
      if |parts| < 3 then None
      else
        var msg := parts[2];
        match CommitType(msg)
        case None => None
        case Some(prefix) =>
          if MatchesConventional(msg) then None
          else Some(prefix + ": " + StripOldPrefix(msg))
  }

  /** A pick line is rewritten exactly when it has a message field that
      starts with one of the type words and is not yet conventional. */
  lemma NewMessageExactly(line: string)
    requires StartsWith(line, "pick ")
    ensures NewMessage(line).Some? <==>
      var parts := SplitSpace2(Strip(line));
      |parts| == 3 && (exists w :: w in TypeWords && StartsWith(parts[2], w))
      && !IsConventional(parts[2])
  {
    var parts := SplitSpace2(Strip(line));
    NewMessageTyped(line);
    if |parts| == 3 {
      CommitTypeExactly(parts[2]);
    }
  }

  /** The same, with the type words left to the type tests. */
  lemma NewMessageTyped(line: string)
    requires StartsWith(line, "pick ")
    ensures NewMessage(line).Some? <==>
      var parts := SplitSpace2(Strip(line));
      |parts| == 3 && CommitType(parts[2]).Some? && !IsConventional(parts[2])
  {
  }

  /** The message a rewritten pick line gets: the type its type word stands
      for, a colon and a space, then the message with its old prefix cut
      off. */
  lemma NewMessageOfWord(line: string, w: string)
    requires StartsWith(line, "pick ")
    requires |SplitSpace2(Strip(line))| == 3
    requires w in TypeWords && StartsWith(SplitSpace2(Strip(line))[2], w)
    requires !IsConventional(SplitSpace2(Strip(line))[2])
    ensures NewMessage(line) ==
      Some(TypeOfWord(w) + ": " + StripOldPrefix(SplitSpace2(Strip(line))[2]))
  {
    var msg := SplitSpace2(Strip(line))[2];
    CommitTypeOfWord(msg, w);
    NewMessageTyped(line);
    assert NewMessage(line).Some?;
  }

  /** A type name, a colon, a space and anything at all match the pattern. */
  lemma TypedIsConventional(t: string, rest: string)
    requires LowerWord(t)
    ensures IsConventional(t + ": " + rest)
  {
    var m := t + ": " + rest;
    assert m[|t|] == ':' && m[|t| + 1] == ' ';
    assert forall i :: 1 <= i < |t| ==> m[i] == t[i];
    assert ColonSpaceAt(m, |t|) && NoLineFeed(m, 1, |t|);
  }

  /** Every rewritten message is itself conventional, so the script leaves
      a pick line carrying it alone: rewriting is idempotent on messages. */
  lemma RewrittenIsConventional(line: string)
    requires NewMessage(line).Some?
    ensures IsConventional(NewMessage(line).value)
  {
    var msg := SplitSpace2(Strip(line))[2];
    TypedIsConventional(CommitType(msg).value, StripOldPrefix(msg));
  }

  lemma Head(msg: string, w: string)
    requires StartsWith(msg, w) && |w| > 0
    ensures msg[0] == w[0]
  {
    assert msg[..|w|][0] == msg[0];
  }

  /** The first two characters of a message tell the alternatives apart. */
  lemma SecondChar(msg: string, w: string)
    requires StartsWith(msg, w) && |w| > 1
    ensures msg[1] == w[1]
  {
    assert msg[..|w|][1] == msg[1];
  }

  /** The alternative of the pattern that starts with `c` and then `d`; the
      first two characters tell all fourteen apart. */
  function WordByHead(c: char, d: char): string {
    match c
    case '功' => "功能"
    case '配' => "配置"
    case '构' => "构建"
    case '修' => "修复"
    case '优' => "优化"
    case '清' => "清理"
    case '新' => "新特性"
    case 'd' => "design"
    case 'f' => if d == 'e' then "feat" else "fix"
    case 'c' => "chore"
    case 'b' => "build"
    case 'r' => "refactor"
    case _ => "style"
  }

  lemma WordOfHead(w: string)
    requires w in OldPrefixes
    ensures |w| > 1 && w == WordByHead(w[0], w[1])
  {
    forall i | 0 <= i < |OldPrefixes|
      ensures |OldPrefixes[i]| > 1 && OldPrefixes[i] == WordByHead(OldPrefixes[i][0], OldPrefixes[i][1])
    {
    }
  }

  /** No alternative of the pattern is a prefix of another, so a message
      starts with at most one of them. */
  lemma UniquePrefix(msg: string, v: string, w: string)
    requires v in OldPrefixes && w in OldPrefixes
    requires StartsWith(msg, v) && StartsWith(msg, w)
    ensures v == w
  {
    WordOfHead(v);
    WordOfHead(w);
    Head(msg, v);
    Head(msg, w);
    SecondChar(msg, v);
    SecondChar(msg, w);
  }

  /** The word whose test chose the commit type. */
  lemma CommitTypeWord(msg: string) returns (v: string)
    requires CommitType(msg).Some?
    ensures v in TypeWords && StartsWith(msg, v)
    ensures TypeOfWord(v) == CommitType(msg).value
  {
    if StartsWith(msg, "功能") { v := "功能"; }
    else if StartsWith(msg, "feat") { v := "feat"; }
    else if StartsWith(msg, "配置") { v := "配置"; }
    else if StartsWith(msg, "chore") { v := "chore"; }
    else { v := MiddleCommitTypeWord(msg); }
  }

  /** The same, for a message that none of the first four words starts. */
  lemma MiddleCommitTypeWord(msg: string) returns (v: string)
    requires CommitType(msg).Some?
    requires !StartsWith(msg, "功能") && !StartsWith(msg, "feat")
    requires !StartsWith(msg, "配置") && !StartsWith(msg, "chore")
    ensures v in TypeWords && StartsWith(msg, v)
    ensures TypeOfWord(v) == CommitType(msg).value
  {
    if StartsWith(msg, "构建") { v := "构建"; }
    else if StartsWith(msg, "build") { v := "build"; }
    else if StartsWith(msg, "修复") { v := "修复"; }
    else if StartsWith(msg, "fix") { v := "fix"; }
    else { v := LaterCommitTypeWord(msg); }
  }

  /** The same, for a message that none of the first eight words starts. */
  lemma LaterCommitTypeWord(msg: string) returns (v: string)
    requires CommitType(msg).Some?
    requires !StartsWith(msg, "功能") && !StartsWith(msg, "feat")
    requires !StartsWith(msg, "配置") && !StartsWith(msg, "chore")
    requires !StartsWith(msg, "构建") && !StartsWith(msg, "build")
    requires !StartsWith(msg, "修复") && !StartsWith(msg, "fix")
    ensures v in TypeWords && StartsWith(msg, v)
    ensures TypeOfWord(v) == CommitType(msg).value
  {
    if StartsWith(msg, "优化") { v := "优化"; }
    else if StartsWith(msg, "refactor") { v := "refactor"; }
    else if StartsWith(msg, "清理") { v := "清理"; }
    else if StartsWith(msg, "新特性") { v := "新特性"; }
    else { v := "design"; }
  }

  /** The type-word tests and the prefix pattern agree: no type word is a
      prefix of another, so the word the pattern strips is the very one that
      chose the type. */
  lemma StrippedWordChoseType(msg: string)
    requires CommitType(msg).Some?
    ensures OldPrefixWord(msg).Some?
    ensures TypeOfWord(OldPrefixWord(msg).value) == CommitType(msg).value
  {
    var v := CommitTypeWord(msg);
    TypeWordIsPrefixWord(v);
    OldPrefixWordMatches(msg);
    UniquePrefix(msg, v, OldPrefixWord(msg).value);
  }

  /** `new_msg.replace('"', '\\"')`, the escaping the script applies: a
      backslash before every double quote, and nothing else. */
  function EscapeQuotes(s: string): (r: string)
    ensures |r| == |s| + Count(s, IsQuote)
    ensures forall i :: 0 <= i < |r| && r[i] == '"' ==> i > 0 && r[i - 1] == '\\'
  {
    if s == [] then []
    else
      var tail := EscapeQuotes(s[1..]);
      if s[0] == '"' then
        var r := ['\\', '"'] + tail;
        assert forall i :: 2 <= i < |r| ==> r[i] == tail[i - 2];
        r
      else
        var r := [s[0]] + tail;
        assert forall i :: 1 <= i < |r| ==> r[i] == tail[i - 1];
        assert r[0] == '"' ==> false;
        r
  }

  function IsQuote(c: char): bool { c == '"' }

  /** Reading the escaping back: every backslash followed by a double quote
      becomes the double quote alone, and every other character stays. */
  function UnescapeQuotes(s: string): (r: string)
    ensures |r| <= |s|
  {
    if s == [] then []
    else if |s| >= 2 && s[0] == '\\' && s[1] == '"' then ['"'] + UnescapeQuotes(s[2..])
    else [s[0]] + UnescapeQuotes(s[1..])
  }

  /** The escaping loses nothing: reading it back gives the message, so
      every character other than the inserted backslashes is kept, in
      order. */
  lemma {:induction false} UnescapeEscapeQuotes(s: string)
    ensures UnescapeQuotes(EscapeQuotes(s)) == s
    decreases |s|
  {
    if s != [] {
      var tail := EscapeQuotes(s[1..]);
      UnescapeEscapeQuotes(s[1..]);
      if s[0] == '"' {
        var e := ['\\', '"'] + tail;
        assert EscapeQuotes(s) == e;
        assert e[2..] == tail;
      } else {
        var e := [s[0]] + tail;
        assert EscapeQuotes(s) == e;
        assert tail == [] || tail[0] != '"';
        assert e[1..] == tail;
      }
      assert s == [s[0]] + s[1..];
    }
  }

  /** The characters a backslash escapes inside POSIX shell double quotes
      (section 2.2.3 of the Shell Command Language): `$`, backquote, `"` and
      backslash. */
  predicate DQSpecial(c: char) {
    c == '$' || c == '`' || c == '"' || c == '\\'
  }

  /** Escaping for a double-quoted shell word: a backslash before each of
      the four special characters. */
  function ShEscape(s: string): (r: string)
    ensures |r| == |s| + Count(s, DQSpecialFn)
  {
    if s == [] then []
    else (if DQSpecial(s[0]) then ['\\', s[0]] else [s[0]]) + ShEscape(s[1..])
  }

  function DQSpecialFn(c: char): bool { DQSpecial(c) }

  /** How `sh` reads the inside of a double-quoted word, up to its closing
      quote: the literal text and how many characters were read, closing
      quote included. A backslash before a special character or a newline
      quotes it (the newline is dropped), any other backslash is literal.
      None when the word is unterminated or an unescaped `$` or backquote
      would start an expansion, so the text would not be taken literally. */
  function ReadDoubleQuoted(s: string): (r: Option<(string, nat)>)
    ensures r.Some? ==> r.value.1 <= |s|
    decreases |s|
  {
    if s == [] then None
    else if s[0] == '"' then Some(([], 1))
    else if s[0] == '$' || s[0] == '`' then None
    else if s[0] == '\\' && |s| >= 2 && s[1] == '\n' then
      match ReadDoubleQuoted(s[2..])
      case None => None
      case Some((w, n)) => Some((w, n + 2))
    else if s[0] == '\\' && |s| >= 2 && DQSpecial(s[1]) then
      match ReadDoubleQuoted(s[2..])
      case None => None
      case Some((w, n)) => Some(([s[1]] + w, n + 2))
    else
      match ReadDoubleQuoted(s[1..])
      case None => None
      case Some((w, n)) => Some(([s[0]] + w, n + 1))
  }

  /** Reading past an escaped special character keeps the character. */
  lemma ReadEscapedStep(c: char, t: string, w: string, n: nat)
    requires DQSpecial(c) && ReadDoubleQuoted(t) == Some((w, n))
    ensures ReadDoubleQuoted(['\\', c] + t) == Some(([c] + w, n + 2))
  {
    assert (['\\', c] + t)[2..] == t;
  }

  /** Reading past an ordinary character keeps it. */
  lemma ReadPlainStep(c: char, t: string, w: string, n: nat)
    requires !DQSpecial(c) && ReadDoubleQuoted(t) == Some((w, n))
    ensures ReadDoubleQuoted([c] + t) == Some(([c] + w, n + 1))
  {
    assert ([c] + t)[1..] == t;
  }

  /** Reading past one escaped character, given what the rest reads back
      to: a special character comes with its backslash, any other alone. */
  lemma ReadBackStep(c: char, esc: string, rest: string, w: string, e: string)
    requires e == (if DQSpecial(c) then ['\\', c] else [c]) + esc
    requires ReadDoubleQuoted(esc + "\"" + rest) == Some((w, |esc| + 1))
    ensures ReadDoubleQuoted(e + "\"" + rest) == Some(([c] + w, |e| + 1))
  {
    var t := esc + "\"" + rest;
    var a: string := if DQSpecial(c) then ['\\', c] else [c];
    ConcatAssoc(a, esc, "\"");
    ConcatAssoc(a, esc + "\"", rest);
    if DQSpecial(c) {
      ReadEscapedStep(c, t, w, |esc| + 1);
    } else {
      ReadPlainStep(c, t, w, |esc| + 1);
    }
  }

  /** `sh` reads back exactly the escaped text, whatever follows the
      closing quote. */
  lemma {:induction false} ShEscapeReadsBack(s: string, rest: string)
    ensures ReadDoubleQuoted(ShEscape(s) + "\"" + rest) == Some((s, |ShEscape(s)| + 1))
  {
    if s != [] {
      var c, tail := s[0], s[1..];
      assert [c] + tail == s;
      ShEscapeReadsBack(tail, rest);
      ReadBackStep(c, ShEscape(tail), rest, tail, ShEscape(s));
    } else {
      assert ShEscape(s) + "\"" + rest == "\"" + rest;
    }
  }

  /** No backslash, `$` or backquote: the characters, other than the double
      quote, that are special inside sh double quotes. */
  predicate PlainForSh(s: string) {
    forall i :: 0 <= i < |s| ==> s[i] != '\\' && s[i] != '$' && s[i] != '`'
  }

  /** On a message with no backslash, `$` or backquote the two escapings
      agree, so the corrected line differs from the script's only on
      messages the script's line garbles. */
  lemma {:induction false} EscapingsAgree(s: string)
    requires PlainForSh(s)
    ensures ShEscape(s) == EscapeQuotes(s)
  {
    if s != [] {
      EscapingsAgree(s[1..]);
    }
  }

  /** The script's escaping changes nothing in a message without a double
      quote: backslashes, `$` and backquotes go through as they are. */
  lemma {:induction false} EscapeQuotesKeepsQuoteless(s: string)
    requires forall i :: 0 <= i < |s| ==> s[i] != '"'
    ensures EscapeQuotes(s) == s
  {
    if s != [] {
      EscapeQuotesKeepsQuoteless(s[1..]);
      assert [s[0]] + s[1..] == s;
    }
  }

  /** Ordinary characters in front of a double-quoted word that never
      closes do not make it close. */
  lemma {:induction false} ReadPlainPrefixNone(p: string, t: string)
    requires forall i :: 0 <= i < |p| ==> !DQSpecial(p[i])
    requires ReadDoubleQuoted(t) == None
    ensures ReadDoubleQuoted(p + t) == None
  {
    if p != [] {
      ReadPlainPrefixNone(p[1..], t);
      var u := p + t;
      assert u[0] == p[0] && u[1..] == p[1..] + t;
    } else {
      assert p + t == t;
    }
  }

  /** A backslash, a double quote and a line feed: the quote is escaped, so
      the word is still open when the line ends. */
  lemma EscapedQuoteAtEnd(t: string)
    requires |t| == 3 && t[0] == '\\' && t[1] == '"' && t[2] == '\n'
    ensures ReadDoubleQuoted(t) == None
  {
    assert t[2..][1..] == [];
    assert ReadDoubleQuoted(t[2..]) == None;
  }

  /** The script's escaping leaves a message that ends in a backslash
      unterminated: the backslash quotes the closing double quote. Any
      message of ordinary characters and a final backslash, such as
      `fix: a\`, shows it. */
  lemma TrailingBackslashBreaksLine(p: string)
    requires forall i :: 0 <= i < |p| ==> !DQSpecial(p[i])
    ensures EscapeQuotes(p + "\\") == p + "\\"
    ensures ReadDoubleQuoted(EscapeQuotes(p + "\\") + "\"\n") == None
  {
    var b, q := "\\", "\"\n";
    var m := p + b;
    assert forall i :: 0 <= i < |m| ==> m[i] != '"' by {
      assert forall i :: 0 <= i < |p| ==> m[i] == p[i];
    }
    EscapeQuotesKeepsQuoteless(m);
    var t := b + q;
    EscapedQuoteAtEnd(t);
    ReadPlainPrefixNone(p, t);
    ConcatAssoc(p, b, q);
  }

  /** The command of the exec line, up to the opening double quote. */
  const AmendCommand: string := "exec git commit --amend -m \""

  /** The exec line appended after a rewritten pick line. */
  function ExecLine(msg: string): (r: string)
    ensures StartsWith(r, AmendCommand)
    ensures ReadDoubleQuoted(r[|AmendCommand|..]) == Some((msg, |r| - |AmendCommand| - 1))
    ensures r[|r| - 1] == '\n'
  {
    QuotedArgument(AmendCommand, msg, "\n");
    AmendCommand + ShEscape(msg) + "\"" + "\n"
  }

  /** A command followed by an escaped double-quoted argument: `sh` reads
      the argument, starting right after the command, back as the message,
      whatever follows the closing quote. */
  lemma QuotedArgument(prefix: string, msg: string, rest: string)
    ensures var r := prefix + ShEscape(msg) + "\"" + rest;
      StartsWith(r, prefix)
      && ReadDoubleQuoted(r[|prefix|..]) == Some((msg, |ShEscape(msg)| + 1))
  {
    var e := ShEscape(msg);
    ShEscapeReadsBack(msg, rest);
    ConcatAssoc(prefix, e, "\"");
    ConcatAssoc(prefix, e + "\"", rest);
    AppendSlices(prefix, e + "\"" + rest);
  }

  /** The exec line as the script writes it: only double quotes are
      escaped. */
  function ScriptExecLine(msg: string): (r: string)
    ensures StartsWith(r, AmendCommand) && r[|r| - 2..] == "\"\n"
    ensures |r| == |AmendCommand| + |msg| + Count(msg, IsQuote) + 2
    ensures UnescapeQuotes(r[|AmendCommand|..|r| - 2]) == msg
  {
    var e := EscapeQuotes(msg);
    UnescapeEscapeQuotes(msg);
    var r := AmendCommand + e + "\"" + "\n";
    ConcatAssoc(AmendCommand + e, "\"", "\n");
    MiddleSlice(AmendCommand, e, "\"\n");
    r
  }

  /** On messages without backslash, `$` or backquote the script's exec line
      is the corrected one, so sh reads its argument back as the message. */
  lemma ScriptExecLineAgrees(msg: string)
    requires PlainForSh(msg)
    ensures ScriptExecLine(msg) == ExecLine(msg)
  {
    EscapingsAgree(msg);
  }

  /** The script's exec line for a message of ordinary characters ending in
      a backslash: sh never finds the end of its quoted argument. */
  lemma ScriptExecLineUnclosed(p: string)
    requires forall i :: 0 <= i < |p| ==> !DQSpecial(p[i])
    ensures ReadDoubleQuoted(ScriptExecLine(p + "\\")[|AmendCommand|..]) == None
  {
    var e := EscapeQuotes(p + "\\");
    TrailingBackslashBreaksLine(p);
    ConcatAssoc(AmendCommand, e, "\"");
    ConcatAssoc(AmendCommand, e + "\"", "\n");
    AppendSlices(AmendCommand, e + "\"" + "\n");
    assert e + "\"" + "\n" == e + "\"\n";
  }

  /** One to-do line as the script rewrites it. */
  function ScriptRewriteLine(line: string): (out: seq<string>)
    ensures 1 <= |out| <= 2 && out[0] == line
    ensures |out| == 2 <==> NewMessage(line).Some?
    ensures |out| == 2 ==> out[1] == ScriptExecLine(NewMessage(line).value)
  {
    match NewMessage(line)
    case None => [line]
    case Some(m) => [line, ScriptExecLine(m)]
  }

  /** The whole to-do list as the script rewrites it. */
  function ScriptRewrite(lines: seq<string>): (out: seq<string>)
    ensures |out| == |lines| + Count(lines, IsRewrittenFn)
    decreases |lines|
  {
    if lines == [] then []
    else ScriptRewriteLine(lines[0]) + ScriptRewrite(lines[1..])
  }

  /** A line whose new message, if any, has no backslash, `$` or backquote. */
  predicate PlainRewrite(line: string) {
    NewMessage(line).Some? ==> PlainForSh(NewMessage(line).value)
  }

  /** When no new message holds a backslash, `$` or backquote, the script's
      output is the corrected output. */
  lemma {:induction false} ScriptRewriteAgrees(lines: seq<string>)
    requires forall i :: 0 <= i < |lines| ==> PlainRewrite(lines[i])
    ensures ScriptRewrite(lines) == Rewrite(lines)
    decreases |lines|
  {
    if lines != [] {
      ScriptRewriteAgrees(lines[1..]);
      if NewMessage(lines[0]).Some? {
        ScriptExecLineAgrees(NewMessage(lines[0]).value);
      }
    }
  }

  /** The script drops and reorders no line either. */
  lemma {:induction false} ScriptRewriteKeepsLines(lines: seq<string>)
    ensures IsSubsequence(lines, ScriptRewrite(lines))
    decreases |lines|
  {
    if lines != [] {
      ScriptRewriteKeepsLines(lines[1..]);
      SubsequenceBlockCons(lines, ScriptRewriteLine(lines[0]), ScriptRewrite(lines[1..]));
    }
  }

  /** One to-do line: kept, and followed by an exec line when rewritten. */
  function RewriteLine(line: string): (out: seq<string>)
    ensures 1 <= |out| <= 2 && out[0] == line
    ensures |out| == 2 <==> NewMessage(line).Some?
    ensures |out| == 2 ==> out[1] == ExecLine(NewMessage(line).value)
  {
    match NewMessage(line)
    case None => [line]
    case Some(m) => [line, ExecLine(m)]
  }

  predicate IsRewritten(line: string) {
    NewMessage(line).Some?
  }

  function IsRewrittenFn(line: string): bool { IsRewritten(line) }

  /** The whole to-do list, line by line. */
  function Rewrite(lines: seq<string>): (out: seq<string>)
    ensures |out| == |lines| + Count(lines, IsRewrittenFn)
    decreases |lines|
  {
    if lines == [] then []
    else RewriteLine(lines[0]) + Rewrite(lines[1..])
  }

  /** No input line is dropped or reordered: the input is a subsequence of
      the output. */
  lemma {:induction false} RewriteKeepsLines(lines: seq<string>)
    ensures IsSubsequence(lines, Rewrite(lines))
    decreases |lines|
  {
    if lines != [] {
      RewriteKeepsLines(lines[1..]);
      SubsequenceBlockCons(lines, RewriteLine(lines[0]), Rewrite(lines[1..]));
    }
  }
}
