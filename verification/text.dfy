/** String operations of the JavaScript and Python standard libraries that the
    application relies on: whitespace classes, `startsWith`, `indexOf`,
    replacing the first occurrence of a substring, `trim` / `strip`, and the
    JavaScript idiom `s.trim().replace(/\s+/g, ' ')`. */
module Text {
  import opened Wrappers
  import opened Seqs

  /** Characters matched by JavaScript's `\s` and removed by
      `String.prototype.trim`: the ECMAScript WhiteSpace and LineTerminator
      code points. */
  predicate IsJsSpace(c: char) {
    c == '\t' || c == '\n' || c == '\U{000B}' || c == '\U{000C}' || c == '\r'
    || c == ' ' || c == '\U{00A0}' || c == '\U{1680}'
    || ('\U{2000}' <= c <= '\U{200A}')
    || c == '\U{2028}' || c == '\U{2029}' || c == '\U{202F}' || c == '\U{205F}'
    || c == '\U{3000}' || c == '\U{FEFF}'
  }

  /** Characters for which Python's `str.isspace()` holds; these are what
      `str.strip()` removes and what `\s` matches in a `str` regular expression. */
  predicate IsPySpace(c: char) {
    c == '\t' || c == '\n' || c == '\U{000B}' || c == '\U{000C}' || c == '\r'
    || ('\U{001C}' <= c <= '\U{001F}')
    || c == ' ' || c == '\U{0085}' || c == '\U{00A0}' || c == '\U{1680}'
    || ('\U{2000}' <= c <= '\U{200A}')
    || c == '\U{2028}' || c == '\U{2029}' || c == '\U{202F}' || c == '\U{205F}'
    || c == '\U{3000}'
  }

  predicate StartsWith(s: string, prefix: string) {
    |prefix| <= |s| && s[..|prefix|] == prefix
  }

  /** `pat` occurs in `s` starting at index `i`. */
  predicate OccursAt(s: string, pat: string, i: nat) {
    i + |pat| <= |s| && s[i..i + |pat|] == pat
  }

  lemma OccursAtTail(s: string, pat: string, j: nat)
    requires s != []
    ensures OccursAt(s, pat, j + 1) <==> OccursAt(s[1..], pat, j)
  {
    if j + 1 + |pat| <= |s| {
      assert s[j + 1..j + 1 + |pat|] == s[1..][j..j + |pat|];
    }
  }

  /** `s.indexOf(pat)`, with -1 written as None: the least index at which `pat`
      occurs. The empty pattern occurs at index 0. */
  function IndexOf(s: string, pat: string): (r: Option<nat>)
    ensures r.Some? ==> OccursAt(s, pat, r.value)
    ensures r.Some? ==> forall j: nat :: j < r.value ==> !OccursAt(s, pat, j)
    ensures r.None? ==> forall j: nat :: !OccursAt(s, pat, j)
  {
    if OccursAt(s, pat, 0) then Some(0)
    else if s == [] then None
    else
      var tail := IndexOf(s[1..], pat);
      assert forall j: nat :: OccursAt(s, pat, j + 1) <==> OccursAt(s[1..], pat, j) by {
        forall j: nat ensures OccursAt(s, pat, j + 1) <==> OccursAt(s[1..], pat, j) {
          OccursAtTail(s, pat, j);
        }
      }
      assert forall j: nat :: j > 0 ==> (OccursAt(s, pat, j) <==> OccursAt(s[1..], pat, j - 1)) by {
        forall j: nat | j > 0 ensures OccursAt(s, pat, j) <==> OccursAt(s[1..], pat, j - 1) {
          OccursAtTail(s, pat, j - 1);
        }
      }
      match tail
      case None => None
      case Some(i) => Some(i + 1)
  }

  /** An occurrence with none before it is the one `IndexOf` finds. */
  lemma IndexOfFirst(s: string, pat: string, k: nat)
    requires OccursAt(s, pat, k)
    requires forall j: nat :: j < k ==> !OccursAt(s, pat, j)
    ensures IndexOf(s, pat) == Some(k)
  {
  }

  /** `s.replace(pat, '')` with a string pattern: only the first occurrence of
      `pat` is cut out; a string without `pat` is returned as it is. */
  function RemoveFirst(s: string, pat: string): (r: string)
    ensures IndexOf(s, pat).None? ==> r == s
    ensures IndexOf(s, pat).Some? ==>
      var i := IndexOf(s, pat).value;
      |r| == |s| - |pat| && r[..i] == s[..i] && r[i..] == s[i + |pat|..]
  {
    match IndexOf(s, pat)
    case None => s
    case Some(i) => s[..i] + s[i + |pat|..]
  }

  /** `s` with every character satisfying `sp` deleted; the visible content that
      whitespace normalisation must keep. */
  function Visible(s: string, sp: char -> bool): (r: string)
    ensures |r| <= |s|
    ensures forall i :: 0 <= i < |r| ==> !sp(r[i])
  {
    if s == [] then [] else (if sp(s[0]) then [] else [s[0]]) + Visible(s[1..], sp)
  }

  lemma {:induction false} VisibleConcat(a: string, b: string, sp: char -> bool)
    ensures Visible(a + b, sp) == Visible(a, sp) + Visible(b, sp)
  {
    if a == [] {
      assert a + b == b;
    } else {
      assert (a + b)[1..] == a[1..] + b;
      VisibleConcat(a[1..], b, sp);
    }
  }

  /** `s` with its leading characters satisfying `sp` removed (`trimStart`,
      `lstrip`). */
  function TrimStart(s: string, sp: char -> bool): (r: string)
    ensures |r| <= |s| && r == s[|s| - |r|..]
    ensures r == [] || !sp(r[0])
    ensures forall i :: 0 <= i < |s| - |r| ==> sp(s[i])
  {
    if s != [] && sp(s[0]) then TrimStart(s[1..], sp) else s
  }

  lemma {:induction false} TrimStartVisible(s: string, sp: char -> bool)
    ensures Visible(TrimStart(s, sp), sp) == Visible(s, sp)
  {
    if s != [] && sp(s[0]) {
      TrimStartVisible(s[1..], sp);
    }
  }

  /** `s` with its trailing characters satisfying `sp` removed (`trimEnd`,
      `rstrip`). */
  function TrimEnd(s: string, sp: char -> bool): (r: string)
    ensures |r| <= |s| && r == s[..|r|]
    ensures r == [] || !sp(r[|r| - 1])
    ensures forall i :: |r| <= i < |s| ==> sp(s[i])
  {
    if s != [] && sp(s[|s| - 1]) then TrimEnd(s[..|s| - 1], sp) else s
  }

  lemma {:induction false} TrimEndVisible(s: string, sp: char -> bool)
    ensures Visible(TrimEnd(s, sp), sp) == Visible(s, sp)
    decreases |s|
  {
    if s != [] && sp(s[|s| - 1]) {
      var p := s[..|s| - 1];
      TrimEndVisible(p, sp);
      assert s == p + [s[|s| - 1]];
      VisibleConcat(p, [s[|s| - 1]], sp);
    }
  }

  /** Every character of `s` is a space. */
  predicate AllSpace(s: string, sp: char -> bool) {
    forall i :: 0 <= i < |s| ==> sp(s[i])
  }

  /** Neither the first nor the last character of `s` is a space. */
  predicate NoSpaceAtEnds(s: string, sp: char -> bool) {
    s == [] || (!sp(s[0]) && !sp(s[|s| - 1]))
  }

  /** `s` is `r` with only spaces around it. */
  ghost predicate SpaceBound(s: string, r: string, sp: char -> bool) {
    exists a, b :: s == a + r + b && AllSpace(a, sp) && AllSpace(b, sp)
  }

  /** `s.trim()` in JavaScript, `s.strip()` in Python: both ends trimmed. */
  function Trim(s: string, sp: char -> bool): (r: string)
    ensures |r| <= |s|
    ensures NoSpaceAtEnds(r, sp)
    ensures SpaceBound(s, r, sp)
    ensures r == [] <==> AllSpace(s, sp)
  {
    var t := TrimStart(s, sp);
    var u := TrimEnd(t, sp);
    TrimBothEnds(s, sp, t, u);
    TrimmedSlice(s, sp, t, u);
    u
  }

  /** The slice `Trim` keeps, from what the two one-sided trims promise. */
  lemma TrimmedSlice(s: string, sp: char -> bool, t: string, r: string)
    requires |t| <= |s| && t == s[|s| - |t|..]
    requires forall i :: 0 <= i < |s| - |t| ==> sp(s[i])
    requires |r| <= |t| && r == t[..|r|]
    requires forall i :: |r| <= i < |t| ==> sp(t[i])
    ensures SpaceBound(s, r, sp)
  {
    var a, b := s[..|s| - |t|], t[|r|..];
    assert t == r + b;
    assert s == a + t;
    assert AllSpace(a, sp);
    assert AllSpace(b, sp) by {
      forall i | 0 <= i < |b|
        ensures sp(b[i])
      {
        assert b[i] == t[|r| + i];
      }
    }
    assert s == a + r + b;
  }

  /** Trimming is fully described by its contract: the only slice of `s`
      that only spaces surround and that neither starts nor ends with a space
      is the trimmed text. */
  lemma TrimUnique(s: string, r: string, sp: char -> bool)
    requires SpaceBound(s, r, sp) && NoSpaceAtEnds(r, sp)
    ensures Trim(s, sp) == r
  {
    var u := Trim(s, sp);
    var a, b :| s == a + r + b && AllSpace(a, sp) && AllSpace(b, sp);
    var a2, b2 :| s == a2 + u + b2 && AllSpace(a2, sp) && AllSpace(b2, sp);
    if r == [] {
      SpacesOnly(s, a, r, b, sp);
    } else {
      SameSlice(s, a, r, b, a2, u, b2, sp);
    }
  }

  lemma SpacesOnly(s: string, a: string, r: string, b: string, sp: char -> bool)
    requires s == a + r + b && r == [] && AllSpace(a, sp) && AllSpace(b, sp)
    ensures AllSpace(s, sp)
  {
    assert a + r == a;
    forall i | 0 <= i < |s|
      ensures sp(s[i])
    {
      if i < |a| { assert s[i] == a[i]; } else { assert s[i] == b[i - |a|]; }
    }
  }

  /** Two slices of `s` that only spaces surround and that do not start or
      end with a space, the first non-empty, are the same slice. */
  lemma SameSlice(s: string, a: string, r: string, b: string,
                  a2: string, u: string, b2: string, sp: char -> bool)
    requires s == a + r + b && AllSpace(a, sp) && AllSpace(b, sp)
    requires s == a2 + u + b2 && AllSpace(a2, sp) && AllSpace(b2, sp)
    requires r != [] && NoSpaceAtEnds(r, sp) && NoSpaceAtEnds(u, sp)
    requires u == [] <==> AllSpace(s, sp)
    ensures r == u
  {
    Surrounded(s, a, r, b);
    Surrounded(s, a2, u, b2);
    assert !AllSpace(s, sp) by {
      assert s[|a|] == r[0];
    }
    SpaceLead(s, a, r, a2, sp);
    SpaceLead(s, a2, u, a, sp);
    SpaceTrail(s, r, b, b2, sp);
    SpaceTrail(s, u, b2, b, sp);
  }

  /** Where the parts of `a + r + b` sit. */
  lemma Surrounded(s: string, a: string, r: string, b: string)
    requires s == a + r + b
    ensures s[..|a|] == a && s[|a|..|s| - |b|] == r && s[|s| - |b|..] == b
  {
  }

  /** A run of spaces at the start of `s` ends before the first character of
      a slice that does not start with a space. */
  lemma SpaceLead(s: string, a: string, r: string, a2: string, sp: char -> bool)
    requires |a| + |r| <= |s| && s[|a|..|a| + |r|] == r && r != [] && !sp(r[0])
    requires |a2| <= |s| && s[..|a2|] == a2 && AllSpace(a2, sp)
    ensures |a2| <= |a|
  {
    assert s[|a|] == r[0];
    forall k | 0 <= k < |a2|
      ensures sp(s[k])
    {
      assert s[k] == a2[k];
    }
  }

  /** The same at the end of `s`. */
  lemma SpaceTrail(s: string, r: string, b: string, b2: string, sp: char -> bool)
    requires |r| + |b| <= |s| && s[|s| - |b| - |r|..|s| - |b|] == r && r != [] && !sp(r[|r| - 1])
    requires |b2| <= |s| && s[|s| - |b2|..] == b2 && AllSpace(b2, sp)
    ensures |b2| <= |b|
  {
    assert s[|s| - |b| - 1] == r[|r| - 1];
    forall k | |s| - |b2| <= k < |s|
      ensures sp(s[k])
    {
      assert s[k] == b2[k - (|s| - |b2|)];
    }
  }

  /** Trimming drops only spaces: the visible characters are all kept, in
      order. */
  lemma TrimVisible(s: string, sp: char -> bool)
    ensures Visible(Trim(s, sp), sp) == Visible(s, sp)
  {
    TrimStartVisible(s, sp);
    TrimEndVisible(TrimStart(s, sp), sp);
  }

  /** The facts `Trim` rests on, from what the two one-sided trims promise. */
  lemma TrimBothEnds(s: string, sp: char -> bool, t: string, r: string)
    requires |t| <= |s| && t == s[|s| - |t|..] && (t == [] || !sp(t[0]))
    requires forall i :: 0 <= i < |s| - |t| ==> sp(s[i])
    requires |r| <= |t| && r == t[..|r|] && (r == [] || !sp(r[|r| - 1]))
    requires forall i :: |r| <= i < |t| ==> sp(t[i])
    ensures NoSpaceAtEnds(r, sp)
    ensures r == [] <==> AllSpace(s, sp)
  {
    var k := |s| - |t|;
    if r != [] {
      assert r[0] == t[0];
      assert r[0] == s[k];
    } else {
      assert t == [];
      assert AllSpace(s, sp);
    }
  }

  /** `s.replace(/\s+/g, ' ')`: every maximal run of JavaScript whitespace
      becomes one space character. */
  function Collapse(s: string): (r: string)
    ensures |r| <= |s|
    ensures r == [] <==> s == []
    ensures s != [] ==> (IsJsSpace(r[0]) <==> IsJsSpace(s[0]))
    decreases |s|
  {
    if s == [] then []
    else if IsJsSpace(s[0]) then
      [' '] + Collapse(TrimStart(s[1..], IsJsSpace))
    else
      [s[0]] + Collapse(s[1..])
  }

  /** What follows a leading run of spaces ends where `s` ends, or is
      empty when `s` ends in a space. */
  lemma SpaceRunLast(s: string, t: string)
    requires s != [] && IsJsSpace(s[0]) && t == TrimStart(s[1..], IsJsSpace)
    ensures t == [] ==> IsJsSpace(s[|s| - 1])
    ensures t != [] ==> t[|t| - 1] == s[|s| - 1]
  {
    if t == [] && |s| > 1 {
      assert s[1..][|s| - 2] == s[|s| - 1];
    }
  }

  /** Whitespace in collapsed text is a single ' ' between non-whitespace. */
  predicate Collapsed(s: string) {
    && (forall i :: 0 <= i < |s| && IsJsSpace(s[i]) ==> s[i] == ' ')
    && (forall i :: 0 <= i < |s| - 1 ==> !(IsJsSpace(s[i]) && IsJsSpace(s[i + 1])))
  }

  lemma CollapsedCons(c: char, s: string)
    requires Collapsed(s)
    requires IsJsSpace(c) ==> c == ' ' && (s == [] || !IsJsSpace(s[0]))
    ensures Collapsed([c] + s)
  {
    var t := [c] + s;
    forall i | 0 <= i < |t| - 1
      ensures !(IsJsSpace(t[i]) && IsJsSpace(t[i + 1]))
    {
      if i > 0 {
        assert t[i] == s[i - 1] && t[i + 1] == s[i];
      }
    }
  }

  /** Collapsing yields collapsed text. */
  lemma {:induction false} CollapseCollapsed(s: string)
    ensures Collapsed(Collapse(s))
    decreases |s|
  {
    if s == [] {
    } else if IsJsSpace(s[0]) {
      var t := TrimStart(s[1..], IsJsSpace);
      CollapseCollapsed(t);
      CollapsedCons(' ', Collapse(t));
    } else {
      CollapseCollapsed(s[1..]);
      CollapsedCons(s[0], Collapse(s[1..]));
    }
  }

  /** Collapsing keeps every visible character, in order. */
  lemma {:induction false} CollapseVisible(s: string)
    ensures Visible(Collapse(s), IsJsSpace) == Visible(s, IsJsSpace)
    decreases |s|
  {
    if s != [] && IsJsSpace(s[0]) {
      var t := TrimStart(s[1..], IsJsSpace);
      var c := Collapse(t);
      assert Collapse(s) == [' '] + c;
      assert ([' '] + c)[1..] == c;
      CollapseVisible(t);
      TrimStartVisible(s[1..], IsJsSpace);
    } else if s != [] {
      var c := Collapse(s[1..]);
      assert Collapse(s) == [s[0]] + c;
      assert ([s[0]] + c)[1..] == c;
      CollapseVisible(s[1..]);
    }
  }

  /** The shape `s.trim().replace(/\s+/g, ' ')` produces: no whitespace at
      either end, no whitespace character other than ' ', and never two
      whitespace characters side by side. */
  predicate Normalized(s: string) {
    && NoSpaceAtEnds(s, IsJsSpace)
    && Collapsed(s)
  }

  /** `s.trim().replace(/\s+/g, ' ')`. */
  function Normalize(s: string): (r: string)
    ensures Normalized(r)
    ensures |r| <= |s|
    ensures Visible(r, IsJsSpace) == Visible(s, IsJsSpace)
    ensures r == [] <==> forall i :: 0 <= i < |s| ==> IsJsSpace(s[i])
  {
    var u := Trim(s, IsJsSpace);
    CollapseCollapsed(u);
    CollapseVisible(u);
    TrimVisible(s, IsJsSpace);
    CollapseKeepsEnds(u);
    Collapse(u)
  }

  /** Collapsing keeps text without whitespace at its ends so. */
  lemma CollapseKeepsEnds(u: string)
    requires NoSpaceAtEnds(u, IsJsSpace)
    ensures NoSpaceAtEnds(Collapse(u), IsJsSpace)
  {
    if u != [] {
      CollapseLast(u);
    }
  }

  /** How a character looks after collapsing: whitespace becomes ' '. */
  function Shown(c: char): char {
    if IsJsSpace(c) then ' ' else c
  }

  /** Collapsing keeps the last character as it is shown. */
  lemma {:induction false} CollapseLast(s: string)
    requires s != []
    ensures var r := Collapse(s); r[|r| - 1] == Shown(s[|s| - 1])
    decreases |s|
  {
    var y := Shown(s[|s| - 1]);
    if IsJsSpace(s[0]) {
      var t := TrimStart(s[1..], IsJsSpace);
      SpaceRunLast(s, t);
      if t != [] {
        CollapseLast(t);
      }
      LastOfCons(Collapse(s), ' ', Collapse(t), y);
    } else {
      if |s| > 1 {
        CollapseLast(s[1..]);
      }
      LastOfCons(Collapse(s), s[0], Collapse(s[1..]), y);
    }
  }

  lemma LastOfCons(r: string, c: char, u: string, y: char)
    requires r == [c] + u
    requires u == [] ==> c == y
    requires u != [] ==> u[|u| - 1] == y
    ensures r[|r| - 1] == y
  {
  }

  /** Collapsing a string that is already collapsed changes nothing. */
  lemma {:induction false} CollapseFixesCollapsed(s: string)
    requires Collapsed(s)
    ensures Collapse(s) == s
    decreases |s|
  {
    if s != [] {
      var tail := s[1..];
      assert Collapsed(tail) by {
        forall i | 0 <= i < |tail| - 1
          ensures !(IsJsSpace(tail[i]) && IsJsSpace(tail[i + 1]))
        {
          assert tail[i] == s[i + 1] && tail[i + 1] == s[i + 2];
        }
      }
      if IsJsSpace(s[0]) {
        assert s[0] == ' ';
        assert tail != [] ==> !IsJsSpace(tail[0]) by {
          if tail != [] { assert tail[0] == s[1]; }
        }
        assert TrimStart(tail, IsJsSpace) == tail;
      }
      CollapseFixesCollapsed(tail);
      assert s == [s[0]] + tail;
    }
  }

  /** Normalisation leaves normalised text alone, so it is idempotent. */
  lemma NormalizeFixesNormalized(s: string)
    requires Normalized(s)
    ensures Normalize(s) == s
  {
    assert TrimStart(s, IsJsSpace) == s;
    assert TrimEnd(s, IsJsSpace) == s;
    CollapseFixesCollapsed(s);
  }

  lemma NormalizeIdempotent(s: string)
    ensures Normalize(Normalize(s)) == Normalize(s)
  {
    NormalizeFixesNormalized(Normalize(s));
  }

  /** Length of the longest prefix of `s` free of JavaScript whitespace. */
  function WordLength(s: string): (n: nat)
    ensures n <= |s|
    ensures forall i :: 0 <= i < n ==> !IsJsSpace(s[i])
    ensures n < |s| ==> IsJsSpace(s[n])
  {
    if s == [] || IsJsSpace(s[0]) then 0 else 1 + WordLength(s[1..])
  }

  /** The maximal whitespace-free pieces of `s`, left to right: an independent
      description of what normalisation keeps. */
  function Words(s: string): seq<string>
    decreases |s|
  {
    if s == [] then []
    else if IsJsSpace(s[0]) then Words(s[1..])
    else
      var n := WordLength(s);
      [s[..n]] + Words(s[n..])
  }

  /** The words joined by single spaces. */
  function Join(ws: seq<string>): string {
    if |ws| == 0 then []
    else if |ws| == 1 then ws[0]
    else ws[0] + " " + Join(ws[1..])
  }

  lemma {:induction false} WordsAllSpace(s: string)
    requires forall i :: 0 <= i < |s| ==> IsJsSpace(s[i])
    ensures Words(s) == []
  {
    if s != [] {
      WordsAllSpace(s[1..]);
    }
  }

  lemma {:induction false} WordsTrimStart(s: string)
    ensures Words(TrimStart(s, IsJsSpace)) == Words(s)
  {
    if s != [] && IsJsSpace(s[0]) {
      WordsTrimStart(s[1..]);
    }
  }

  lemma {:induction false} WordLengthAppend(t: string, q: string)
    requires WordLength(t) < |t| || q == [] || IsJsSpace(q[0])
    ensures WordLength(t + q) == WordLength(t)
    decreases |t|
  {
    if t == [] {
      assert t + q == q;
    } else if !IsJsSpace(t[0]) {
      assert (t + q)[1..] == t[1..] + q;
      WordLengthAppend(t[1..], q);
    }
  }

  /** Trailing whitespace does not change the words. */
  lemma {:induction false} WordsAppendSpaces(p: string, sp: string)
    requires forall i :: 0 <= i < |sp| ==> IsJsSpace(sp[i])
    ensures Words(p + sp) == Words(p)
    decreases |p|
  {
    if p == [] {
      assert p + sp == sp;
      WordsAllSpace(sp);
    } else if IsJsSpace(p[0]) {
      assert (p + sp)[1..] == p[1..] + sp;
      WordsAppendSpaces(p[1..], sp);
    } else {
      var n := WordLength(p);
      WordLengthAppend(p, sp);
      assert (p + sp)[..n] == p[..n];
      assert (p + sp)[n..] == p[n..] + sp;
      WordsAppendSpaces(p[n..], sp);
    }
  }

  lemma {:induction false} WordsTrim(s: string)
    ensures Words(Trim(s, IsJsSpace)) == Words(s)
  {
    var t := TrimStart(s, IsJsSpace);
    var r := TrimEnd(t, IsJsSpace);
    assert Trim(s, IsJsSpace) == r;
    WordsTrimStart(s);
    var tail := t[|r|..];
    SplitAt(t, |r|);
    assert forall i :: 0 <= i < |tail| ==> IsJsSpace(tail[i]) by {
      forall i | 0 <= i < |tail| ensures IsJsSpace(tail[i]) {
        assert tail[i] == t[|r| + i];
      }
    }
    WordsAppendSpaces(r, tail);
  }

  /** Collapsing a whitespace-free prefix copies it. */
  lemma {:induction false} CollapseWordPrefix(w: string, rest: string)
    requires forall i :: 0 <= i < |w| ==> !IsJsSpace(w[i])
    ensures Collapse(w + rest) == w + Collapse(rest)
    decreases |w|
  {
    if w == [] {
      assert w + rest == rest;
    } else {
      var u := w + rest;
      assert u[1..] == w[1..] + rest;
      CollapseWordPrefix(w[1..], rest);
      ConsStep(w, Collapse(u), Collapse(u[1..]), Collapse(rest));
    }
  }

  /** A head character put back in front of a collapsed tail. */
  lemma ConsStep(w: string, cu: string, cu1: string, cr: string)
    requires w != [] && cu == [w[0]] + cu1 && cu1 == w[1..] + cr
    ensures cu == w + cr
  {
    ConcatAssoc([w[0]], w[1..], cr);
    assert [w[0]] + w[1..] == w;
  }

  lemma CollapseSpaceLead(rest: string)
    requires rest != [] && IsJsSpace(rest[0])
    ensures Collapse(rest) == " " + Collapse(TrimStart(rest[1..], IsJsSpace))
  {
  }

  lemma JoinCons(w: string, ws: seq<string>)
    requires ws != []
    ensures Join([w] + ws) == w + " " + Join(ws)
  {
    assert ([w] + ws)[1..] == ws;
  }

  lemma WordsLead(u: string)
    requires u != [] && !IsJsSpace(u[0])
    ensures Words(u) == [u[..WordLength(u)]] + Words(u[WordLength(u)..])
  {
  }

  lemma CollapseWordThenSpace(w: string, rest: string)
    requires rest != [] && IsJsSpace(rest[0])
    requires forall i :: 0 <= i < |w| ==> !IsJsSpace(w[i])
    ensures Collapse(w + rest) == w + (" " + Collapse(TrimStart(rest[1..], IsJsSpace)))
  {
    CollapseWordPrefix(w, rest);
    CollapseSpaceLead(rest);
  }

  lemma JoinAfterWord(w: string, ws: seq<string>, x: string)
    requires ws != [] && x == " " + Join(ws)
    ensures w + x == Join([w] + ws)
  {
    JoinCons(w, ws);
    assert w + (" " + Join(ws)) == w + " " + Join(ws);
  }

  lemma CollapseJoinStep(u: string, w: string, rest: string, v: string)
    requires u == w + rest && rest != [] && IsJsSpace(rest[0])
    requires forall i :: 0 <= i < |w| ==> !IsJsSpace(w[i])
    requires v == TrimStart(rest[1..], IsJsSpace)
    requires Words(u) == [w] + Words(rest)
    requires Words(v) != [] && Words(rest) == Words(v)
    requires Collapse(v) == Join(Words(v))
    ensures Collapse(u) == Join(Words(u))
  {
    CollapseWordThenSpace(w, rest);
    JoinAfterWord(w, Words(v), " " + Collapse(v));
  }

  lemma CollapseOneWord(u: string)
    requires u != [] && WordLength(u) == |u|
    ensures Collapse(u) == Join(Words(u))
  {
    WordsLead(u);
    assert u == u + [];
    CollapseWordPrefix(u, []);
    assert Words(u) == [u];
  }

  /** Trimming the start of text that ends in a non-space leaves text that
      still ends there; stated on what `TrimStart` promises. */
  lemma TrimmedGap(q: string, v: string)
    requires q != [] && !IsJsSpace(q[|q| - 1])
    requires |v| <= |q| && v == q[|q| - |v|..] && (v == [] || !IsJsSpace(v[0]))
    requires forall i :: 0 <= i < |q| - |v| ==> IsJsSpace(q[i])
    ensures v != [] && !IsJsSpace(v[|v| - 1])
  {
    assert |v| > 0;
    assert v[|v| - 1] == q[|q| - 1];
  }

  /** Splits text that starts with a word but is not one word into that word
      and the rest, which starts with whitespace. */
  lemma SplitFirstWord(u: string) returns (w: string, rest: string)
    requires u != [] && !IsJsSpace(u[0])
    requires WordLength(u) < |u|
    ensures u == w + rest && rest != [] && IsJsSpace(rest[0])
    ensures rest == u[|u| - |rest|..]
    ensures forall i :: 0 <= i < |w| ==> !IsJsSpace(w[i])
    ensures Words(u) == [w] + Words(rest)
  {
    var n := WordLength(u);
    w, rest := u[..n], u[n..];
    WordsLead(u);
    assert u == w + rest;
  }

  /** The gap after the first word, trimmed, has the same words as the gap. */
  lemma SkipGap(u: string, rest: string) returns (v: string)
    requires rest != [] && |rest| <= |u| && rest == u[|u| - |rest|..]
    requires IsJsSpace(rest[0]) && !IsJsSpace(u[|u| - 1])
    ensures v == TrimStart(rest[1..], IsJsSpace)
    ensures Words(rest) == Words(v)
    ensures |v| < |rest| && v != [] && !IsJsSpace(v[0]) && !IsJsSpace(v[|v| - 1])
  {
    var q := rest[1..];
    assert rest[|rest| - 1] == u[|u| - 1];
    assert q[|q| - 1] == rest[|rest| - 1];
    v := TrimStart(q, IsJsSpace);
    TrimmedGap(q, v);
    WordsTrimStart(q);
  }

  lemma WordsNonEmpty(v: string)
    requires v != [] && !IsJsSpace(v[0])
    ensures Words(v) != []
  {
  }

  /** On text with no whitespace at either end, collapsing is joining the
      words with single spaces. */
  lemma {:induction false} CollapseTrimmedIsJoin(u: string)
    requires NoSpaceAtEnds(u, IsJsSpace)
    ensures Collapse(u) == Join(Words(u))
    decreases |u|
  {
    if u != [] {
      if WordLength(u) == |u| {
        CollapseOneWord(u);
      } else {
        var w, rest := SplitFirstWord(u);
        var v := SkipGap(u, rest);
        WordsNonEmpty(v);
        CollapseTrimmedIsJoin(v);
        CollapseJoinStep(u, w, rest, v);
      }
    }
  }

  /** `s.trim().replace(/\s+/g, ' ')` is the words of `s` joined by single
      spaces. */
  lemma NormalizeIsJoinedWords(s: string)
    ensures Normalize(s) == Join(Words(s))
  {
    var u := Trim(s, IsJsSpace);
    CollapseTrimmedIsJoin(u);
    WordsTrim(s);
    assert Words(u) == Words(s);
  }
}
