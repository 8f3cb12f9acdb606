/** Which lines of a downloaded list reach the CIDR parser: `trim`,
    `is_comment_or_empty` and the inline-comment stripping of the reading loop. */
module LineClean {
  import opened Types

  /** The characters `trim` removes. */
  predicate IsSpace(c: char)
  {
    c == ' ' || c == '\t' || c == '\r' || c == '\n'
  }

  function DropLeadingSpace(s: string): string
  {
    if s != [] && IsSpace(s[0]) then DropLeadingSpace(s[1..]) else s
  }

  function DropTrailingSpace(s: string): string
  {
    if s != [] && IsSpace(s[|s| - 1]) then DropTrailingSpace(s[..|s| - 1]) else s
  }

  /** `s` without its leading and trailing spaces: the value `trim` returns. */
  function Trimmed(s: string): string
  {
    DropTrailingSpace(DropLeadingSpace(s))
  }

  lemma {:induction false} DropLeadingShape(s: string)
    ensures var t := DropLeadingSpace(s);
      |t| <= |s| && t == s[|s| - |t|..] &&
      (forall i :: 0 <= i < |s| - |t| ==> IsSpace(s[i])) &&
      (t == [] || !IsSpace(t[0]))
  {
    if s != [] && IsSpace(s[0]) {
      var t := DropLeadingSpace(s[1..]);
      DropLeadingShape(s[1..]);
      assert DropLeadingSpace(s) == t;
      assert s[1..][|s| - 1 - |t|..] == s[|s| - |t|..];
      forall i | 0 <= i < |s| - |t| ensures IsSpace(s[i]) {
        if i > 0 {
          assert s[i] == s[1..][i - 1];
        }
      }
    }
  }

  lemma {:induction false} DropTrailingShape(s: string)
    ensures var t := DropTrailingSpace(s);
      t <= s &&
      (forall i :: |t| <= i < |s| ==> IsSpace(s[i])) &&
      (t == [] || !IsSpace(t[|t| - 1])) &&
      (s != [] && !IsSpace(s[0]) ==> t != [])
  {
    if s != [] && IsSpace(s[|s| - 1]) {
      DropTrailingShape(s[..|s| - 1]);
    }
  }

  /** `t` is the piece of `s` that starts at index `b`, and everything of `s`
      around it is space. */
  predicate SpaceAround(s: string, t: string, b: nat)
  {
    b + |t| <= |s| && t == s[b..b + |t|] &&
    (forall i :: 0 <= i < b ==> IsSpace(s[i])) &&
    (forall i :: b + |t| <= i < |s| ==> IsSpace(s[i]))
  }

  /** `trim` returns a contiguous piece of its argument, cut off only spaces,
      and leaves no space at either end. */
  lemma TrimmedShape(s: string)
    ensures exists b :: SpaceAround(s, Trimmed(s), b)
    ensures var t := Trimmed(s); t == [] || (!IsSpace(t[0]) && !IsSpace(t[|t| - 1]))
  {
    var m := DropLeadingSpace(s);
    DropLeadingShape(s);
    DropTrailingShape(m);
    var t := Trimmed(s);
    var b := |s| - |m|;
    assert t == s[b..b + |t|];
    assert forall i :: b + |t| <= i < |s| ==> s[i] == m[i - b];
    assert SpaceAround(s, t, b);
  }

  /** A string without spaces at its ends is left alone by `trim`. */
  lemma TrimmedFixed(t: string)
    requires t == [] || (!IsSpace(t[0]) && !IsSpace(t[|t| - 1]))
    ensures Trimmed(t) == t
  {
  }

  /** `trim` is idempotent. */
  lemma TrimIdempotent(s: string)
    ensures Trimmed(Trimmed(s)) == Trimmed(s)
  {
    TrimmedShape(s);
    TrimmedFixed(Trimmed(s));
  }

  /** A string that starts with a non-space keeps that start under `trim`, which
      then only cuts a tail. */
  lemma TrimmedKeepsStart(s: string)
    requires s != [] && !IsSpace(s[0])
    ensures Trimmed(s) != [] && Trimmed(s) <= s
  {
    DropTrailingShape(s);
  }

  /** `trim`: move `b` past the leading spaces, then `e` back past the trailing ones. */
  method Trim(s: string) returns (t: string)
    ensures t == Trimmed(s)
  {
    var b, e := 0, |s|;
    while b < e && IsSpace(s[b])
      invariant 0 <= b <= e == |s|
      invariant DropLeadingSpace(s[b..]) == DropLeadingSpace(s)
    {
      assert s[b..][1..] == s[b + 1..];
      b := b + 1;
    }
    assert DropLeadingSpace(s) == s[b..e];
    while e > b && IsSpace(s[e - 1])
      invariant b <= e <= |s|
      invariant DropTrailingSpace(s[b..e]) == Trimmed(s)
    {
      assert s[b..e][..e - 1 - b] == s[b..e - 1];
      e := e - 1;
    }
    t := s[b..e];
  }

  /** `is_comment_or_empty`. */
  predicate IsCommentOrEmpty(line: string)
  {
    if line == [] then true
    else if line[0] == '#' then true
    else if |line| >= 2 && line[0] == '/' && line[1] == '/' then true
    else line[0] == ';'
  }

  /** A line is skipped exactly when it is empty or starts with `#`, `//` or `;`. */
  lemma CommentPrefixes(line: string)
    ensures IsCommentOrEmpty(line) <==> line == "" || "#" <= line || "//" <= line || ";" <= line
  {
    if |line| >= 2 && line[0] == '/' && line[1] == '/' {
      assert line[..2] == "//";
    }
  }

  /** `pat` occurs in `s` at index `j`. */
  predicate OccursAt(s: string, pat: string, j: nat)
  {
    j + |pat| <= |s| && s[j..j + |pat|] == pat
  }

  /** `s.find(pat, from)`: the first index at or after `from` where `pat` occurs. */
  function FindFrom(s: string, pat: string, from: nat): (r: Option<nat>)
    requires from <= |s|
    ensures r.Some? ==> from <= r.value && OccursAt(s, pat, r.value)
    ensures r.Some? ==> forall j :: from <= j < r.value ==> !OccursAt(s, pat, j)
    ensures r.None? ==> forall j :: from <= j <= |s| ==> !OccursAt(s, pat, j)
    decreases |s| - from
  {
    if OccursAt(s, pat, from) then Some(from)
    else if from == |s| then None
    else FindFrom(s, pat, from + 1)
  }

  /** `s.find(pat)`; `None` stands for `npos`. */
  function Find(s: string, pat: string): (r: Option<nat>)
    ensures r.Some? ==> OccursAt(s, pat, r.value)
    ensures r.Some? ==> forall j :: 0 <= j < r.value ==> !OccursAt(s, pat, j)
    ensures r.None? ==> forall j :: 0 <= j <= |s| ==> !OccursAt(s, pat, j)
  {
    FindFrom(s, pat, 0)
  }

  /** Cut `line` at the first occurrence of `marker` and trim what is left. */
  function StripAfter(line: string, marker: string): string
  {
    match Find(line, marker)
    case Some(p) => Trimmed(line[..p])
    case None => line
  }

  /** Where the inline comment of `t` starts: the first index at which ` #` or
      ` ;` occurs, or `|t|` when neither does. */
  function CommentStart(t: string): (p: nat)
    ensures p <= |t|
    ensures p < |t| ==> OccursAt(t, " #", p) || OccursAt(t, " ;", p)
    ensures forall j :: 0 <= j < p ==> !OccursAt(t, " #", j) && !OccursAt(t, " ;", j)
  {
    match (Find(t, " #"), Find(t, " ;"))
    case (Some(a), Some(b)) => if a <= b then a else b
    case (Some(a), None) => a
    case (None, Some(b)) => b
    case (None, None) => |t|
  }

  /** The line cleaning of the reading loop: trim, skip comments and empty
      lines, strip a trailing ` #` comment and then a ` ;` comment, and skip the
      line if nothing is left.  `None` means the line is skipped. */
  function CleanLine(raw: string): (c: Option<string>)
    ensures c.None? <==> IsCommentOrEmpty(Trimmed(raw))
    ensures c.Some? ==> c.value <= Trimmed(raw) && Trimmed(c.value) == c.value
    ensures c.Some? ==> !IsCommentOrEmpty(c.value)
    ensures c.Some? ==> forall j :: 0 <= j <= |c.value| ==> !OccursAt(c.value, " #", j) && !OccursAt(c.value, " ;", j)
    ensures c.Some? ==> var t := Trimmed(raw); c.value == Trimmed(t[..CommentStart(t)])
    ensures var t := Trimmed(raw);
      !IsCommentOrEmpty(t) && (forall j :: 0 <= j <= |t| ==> !OccursAt(t, " #", j) && !OccursAt(t, " ;", j)) ==>
      c == Some(t)
  {
    var line := Trimmed(raw);
    if IsCommentOrEmpty(line) then None
    else
      TrimmedShape(raw);
      var line1 := StripAfter(line, " #");
      StripKeepsStart(line, " #");
      var line2 := StripAfter(line1, " ;");
      StripKeepsStart(line1, " ;");
      NoOccurrenceInPrefix(line1, line2, " #");
      TrimmedShape(line1);
      TrimmedShape(line2);
      StripBoth(line);
      if line2 == [] then None else Some(line2)
  }

  /** An occurrence inside a prefix is an occurrence in the whole string, and
      conversely when it lies inside the prefix. */
  lemma OccursInPrefix(s: string, t: string, pat: string, j: nat)
    requires t <= s
    ensures OccursAt(t, pat, j) ==> OccursAt(s, pat, j)
    ensures j + |pat| <= |t| && OccursAt(s, pat, j) ==> OccursAt(t, pat, j)
  {
    if j + |pat| <= |t| {
      assert s[j..j + |pat|] == t[j..j + |pat|];
    }
  }

  /** Stripping from a trimmed, non-empty line keeps a non-empty trimmed prefix
      that no longer contains the marker. */
  lemma StripKeepsStart(line: string, marker: string)
    requires line != [] && !IsSpace(line[0]) && !IsSpace(line[|line| - 1])
    requires marker != [] && marker[0] == ' '
    ensures var t := StripAfter(line, marker);
      t != [] && t <= line && !IsSpace(t[|t| - 1]) &&
      forall j :: 0 <= j <= |t| ==> !OccursAt(t, marker, j)
  {
    match Find(line, marker)
    case None =>
    case Some(p) =>
      assert p > 0;
      var pre := line[..p];
      TrimmedKeepsStart(pre);
      TrimmedShape(pre);
      var t := Trimmed(pre);
      forall j | 0 <= j <= |t|
        ensures !OccursAt(t, marker, j)
      {
        OccursInPrefix(line, t, marker, j);
      }
  }

  lemma NoOccurrenceInPrefix(s: string, t: string, pat: string)
    requires t <= s
    requires forall j :: 0 <= j <= |s| ==> !OccursAt(s, pat, j)
    ensures forall j :: 0 <= j <= |t| ==> !OccursAt(t, pat, j)
  {
    forall j | 0 <= j <= |t|
      ensures !OccursAt(t, pat, j)
    {
      OccursInPrefix(s, t, pat, j);
    }
  }

  /** A ` ;` before the first ` #` of a line that starts with a non-space
      survives the ` #` cut. */
  lemma SemicolonKept(t: string, p1: nat, j: nat)
    requires t != [] && !IsSpace(t[0])
    requires OccursAt(t, " #", p1) && j < p1
    ensures OccursAt(t, " ;", j) ==> OccursAt(Trimmed(t[..p1]), " ;", j)
  {
    assert t[p1] == t[p1..p1 + 2][0] == ' ';
    var pre := t[..p1];
    TrimmedKeepsStart(pre);
    DropTrailingShape(pre);
    var line1 := Trimmed(pre);
    if OccursAt(t, " ;", j) {
      assert t[j + 1] == t[j..j + 2][1] == ';';
      assert j + 1 < |line1|;
      OccursInPrefix(t, line1, " ;", j);
    }
  }

  /** The two cuts together keep the trimmed text before the first inline
      comment marker of a trimmed line, whichever marker comes first. */
  lemma StripBoth(t: string)
    requires t != [] && !IsSpace(t[0]) && !IsSpace(t[|t| - 1])
    ensures StripAfter(StripAfter(t, " #"), " ;") == Trimmed(t[..CommentStart(t)])
  {
    var p := CommentStart(t);
    var line1 := StripAfter(t, " #");
    StripKeepsStart(t, " #");
    match Find(line1, " ;")
    case Some(p2) =>
      // A ` ;` of `line1` is one of `t`, and `line1` ends before any ` #`.
      OccursInPrefix(t, line1, " ;", p2);
      forall j | 0 <= j < p2
        ensures !OccursAt(t, " ;", j)
      {
        OccursInPrefix(t, line1, " ;", j);
      }
      match Find(t, " #") {
        case Some(p1) =>
          TrimmedKeepsStart(t[..p1]);
          assert p2 < p1;
        case None =>
      }
      assert p == p2;
      assert line1[..p2] == t[..p2];
    case None =>
      match Find(t, " #")
      case Some(p1) =>
        forall j | 0 <= j < p1
          ensures !OccursAt(t, " ;", j)
        {
          SemicolonKept(t, p1, j);
        }
        assert p == p1;
      case None =>
        forall j | 0 <= j < |t|
          ensures !OccursAt(t, " ;", j)
        {
          assert !OccursAt(line1, " ;", j);
        }
        assert p == |t|;
        assert t[..|t|] == t;
        TrimmedFixed(t);
  }
}
