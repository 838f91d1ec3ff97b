/**
 * The shared helpers of `CommonService`: name formatting, the two error-mapping
 * wrappers around a promise, and the `{ id, message }` reply.
 */
module CommonService {
  import opened Wrappers
  import opened Errors
  import opened Text

  /** The `{ id, message }` object most endpoints answer with. */
  datatype Message = Message(id: string, message: string)

  /** No two whitespace characters stand next to each other. */
  predicate NoAdjacentSpaces(s: string) {
    forall i :: 0 <= i < |s| - 1 ==> !(IsSpace(s[i]) && IsSpace(s[i + 1]))
  }

  /** Neither the first nor the last character is whitespace. */
  predicate Trimmed(s: string) {
    |s| > 0 ==> !IsSpace(s[0]) && !IsSpace(s[|s| - 1])
  }

  // ---------------------------------------------------------------------------
  // formatName, one regular-expression replacement at a time
  // ---------------------------------------------------------------------------

  /** `.replace(/\n/g, ' ')`. */
  function ReplaceNewlines(s: string): (r: string)
    ensures |r| == |s|
    ensures forall i :: 0 <= i < |s| ==> r[i] == if s[i] == '\n' then ' ' else s[i]
  {
    seq(|s|, i requires 0 <= i < |s| => if s[i] == '\n' then ' ' else s[i])
  }

  /** The length of the run of whitespace that `s` starts with. */
  function SpaceRun(s: string): (n: nat)
    ensures n <= |s|
    ensures forall i :: 0 <= i < n ==> IsSpace(s[i])
    ensures n < |s| ==> !IsSpace(s[n])
    decreases |s|
  {
    if |s| > 0 && IsSpace(s[0]) then 1 + SpaceRun(s[1..]) else 0
  }

  /** `.replace(/\s\s+/g, ' ')`: every run of two or more whitespace characters becomes one space. */
  function CollapseSpaces(s: string): (r: string)
    ensures |r| <= |s|
    ensures |r| == 0 <==> |s| == 0
    ensures |s| > 0 ==> (IsSpace(r[0]) <==> IsSpace(s[0]))
    ensures |s| > 0 ==> (IsSpace(r[|r| - 1]) <==> IsSpace(s[|s| - 1]))
    ensures NoAdjacentSpaces(r)
    ensures '\n' !in s ==> '\n' !in r
    decreases |s|
  {
    if |s| == 0 then []
    else
      var n := SpaceRun(s);
      if n >= 2 then
        var rest := CollapseSpaces(s[n..]);
        assert |s[n..]| > 0 ==> s[n..][0] == s[n];
        " " + rest
      else
        var rest := CollapseSpaces(s[1..]);
        assert IsSpace(s[0]) && |s[1..]| > 0 ==> !IsSpace(s[1..][0]);
        [s[0]] + rest
  }

  /** A position the whitespace replacement keeps: a non-whitespace character, or the first of a whitespace run. */
  predicate Kept(s: string, i: nat)
    requires i < |s|
  {
    !IsSpace(s[i]) || i == 0 || !IsSpace(s[i - 1])
  }

  /** What a kept position becomes: the start of a run of two or more whitespace characters is one space. */
  function KeptChar(s: string, i: nat): char
    requires i < |s|
  {
    if IsSpace(s[i]) && i + 1 < |s| && IsSpace(s[i + 1]) then ' ' else s[i]
  }

  /**
   * The reference definition of the whitespace replacement, position by position from `i`:
   * non-whitespace characters and lone whitespace characters are kept in order, and each
   * maximal run of two or more whitespace characters is a single space.
   */
  function CollapsedFrom(s: string, i: nat): string
    requires i <= |s|
    decreases |s| - i
  {
    if i == |s| then [] else (if Kept(s, i) then [KeptChar(s, i)] else []) + CollapsedFrom(s, i + 1)
  }

  function Collapsed(s: string): string {
    CollapsedFrom(s, 0)
  }

  /** The rest of a whitespace run contributes nothing. */
  lemma {:induction false} SkipRun(s: string, i: nat, j: nat)
    requires 0 < i <= j <= |s|
    requires forall k :: i - 1 <= k < j ==> IsSpace(s[k])
    ensures CollapsedFrom(s, i) == CollapsedFrom(s, j)
    decreases j - i
  {
    if i < j {
      assert !Kept(s, i);
      SkipRun(s, i + 1, j);
    }
  }

  /** A position keeps its role when read in a suffix that does not cut a whitespace run. */
  lemma KeptShift(s: string, i: nat, k: nat)
    requires i + k < |s|
    requires 0 < k || i == 0 || !IsSpace(s[i - 1]) || !IsSpace(s[i])
    ensures Kept(s, i + k) == Kept(s[i..], k) && KeptChar(s, i + k) == KeptChar(s[i..], k)
  {
    var t := s[i..];
    assert t[k] == s[i + k];
    assert 0 < k ==> t[k - 1] == s[i + k - 1];
    assert k + 1 < |t| ==> t[k + 1] == s[i + k + 1];
  }

  /** Read from a position not inside a whitespace run, the reference only looks at what follows. */
  lemma {:induction false} CollapsedShift(s: string, i: nat, k: nat)
    requires i + k <= |s|
    requires 0 < k || i == 0 || i == |s| || !IsSpace(s[i - 1]) || !IsSpace(s[i])
    ensures CollapsedFrom(s, i + k) == CollapsedFrom(s[i..], k)
    decreases |s| - i - k
  {
    if i + k < |s| {
      var t := s[i..];
      KeptShift(s, i, k);
      CollapsedShift(s, i, k + 1);
      assert CollapsedFrom(t, k) == (if Kept(t, k) then [KeptChar(t, k)] else []) + CollapsedFrom(t, k + 1);
    }
  }

  /** The reference at a leading run of two or more whitespace characters: one space, then the rest. */
  lemma CollapsedRunHead(s: string)
    requires SpaceRun(s) >= 2
    ensures Collapsed(s) == [' '] + Collapsed(s[SpaceRun(s)..])
  {
    var n := SpaceRun(s);
    assert Kept(s, 0) && KeptChar(s, 0) == ' ';
    assert CollapsedFrom(s, 0) == [' '] + CollapsedFrom(s, 1);
    SkipRun(s, 1, n);
    CollapsedShift(s, n, 0);
  }

  /** The reference at a leading character the replacement keeps. */
  lemma CollapsedKeepHead(s: string)
    requires 0 < |s| && SpaceRun(s) < 2
    ensures Collapsed(s) == [s[0]] + Collapsed(s[1..])
  {
    assert !IsSpace(s[0]) || |s| == 1 || !IsSpace(s[1]);
    KeptHead(s);
  }

  /** The same, stated on the first two characters alone. */
  lemma KeptHead(s: string)
    requires 0 < |s| && (!IsSpace(s[0]) || |s| == 1 || !IsSpace(s[1]))
    ensures Collapsed(s) == [s[0]] + Collapsed(s[1..])
  {
    assert Kept(s, 0) && KeptChar(s, 0) == s[0];
    assert CollapsedFrom(s, 0) == [s[0]] + CollapsedFrom(s, 1);
    CollapsedShift(s, 1, 0);
  }

  /** The recursive replacement agrees with the reference definition. */
  lemma {:induction false} CollapseSpec(s: string)
    ensures CollapseSpaces(s) == Collapsed(s)
    decreases |s|
  {
    if |s| > 0 {
      var n := SpaceRun(s);
      if n >= 2 {
        assert CollapseSpaces(s) == " " + CollapseSpaces(s[n..]);
        CollapseSpec(s[n..]);
        CollapsedRunHead(s);
      } else {
        assert CollapseSpaces(s) == [s[0]] + CollapseSpaces(s[1..]);
        CollapseSpec(s[1..]);
        CollapsedKeepHead(s);
      }
    }
  }

  // `.replace(/\w\S*/g, w => w.replace(/^\w/, l => l.toUpperCase()))`, scanning left to
  // right: `inMatch` says that a match started by a word character is still running,
  // which it does until the next whitespace character.
  function CapitalizeFrom(s: string, inMatch: bool): (r: string)
    ensures |r| == |s|
    ensures forall i :: 0 <= i < |s| ==> r[i] == s[i] || (IsWordChar(s[i]) && r[i] == ToUpper(s[i]))
    ensures forall i :: 0 <= i < |s| ==> (IsSpace(r[i]) <==> IsSpace(s[i]))
    ensures forall i :: 0 <= i < |s| ==> (IsWordChar(r[i]) <==> IsWordChar(s[i]))
    decreases |s|
  {
    if |s| == 0 then []
    else
      var c := s[0];
      var rest := CapitalizeFrom(s[1..], !IsSpace(c) && (inMatch || IsWordChar(c)));
      if !IsSpace(c) && !inMatch && IsWordChar(c) then [ToUpper(c)] + rest else [c] + rest
  }

  function Capitalize(s: string): string {
    CapitalizeFrom(s, false)
  }

  /** `formatName`: trim, turn newlines into spaces, collapse whitespace runs, capitalise words. */
  function FormatName(title: string): (r: string)
    ensures Trimmed(r)
    ensures '\n' !in r
    ensures NoAdjacentSpaces(r)
  {
    var trimmed := Trim(title);
    var spaced := ReplaceNewlines(trimmed);
    NewlinesShape(trimmed);
    var collapsed := CollapseSpaces(spaced);
    CapitalizeShape(collapsed);
    Capitalize(collapsed)
  }

  /** Replacing newlines by spaces removes every newline and keeps a trimmed string trimmed. */
  lemma NewlinesShape(t: string)
    requires Trimmed(t)
    ensures Trimmed(ReplaceNewlines(t)) && '\n' !in ReplaceNewlines(t)
  {
    var r := ReplaceNewlines(t);
    if |r| > 0 {
      assert r[0] == t[0] && r[|r| - 1] == t[|t| - 1];
    }
    forall i | 0 <= i < |r| ensures r[i] != '\n' { }
  }

  /** Capitalising keeps the whitespace where it was and brings in no newline. */
  lemma CapitalizeShape(c: string)
    requires Trimmed(c) && NoAdjacentSpaces(c) && '\n' !in c
    ensures var r := Capitalize(c); Trimmed(r) && NoAdjacentSpaces(r) && '\n' !in r
  {
    var r := Capitalize(c);
    if |r| > 0 {
      assert IsSpace(r[0]) <==> IsSpace(c[0]);
      assert IsSpace(r[|r| - 1]) <==> IsSpace(c[|r| - 1]);
    }
    forall i | 0 <= i < |r| - 1 ensures !(IsSpace(r[i]) && IsSpace(r[i + 1])) {
      assert IsSpace(r[i]) <==> IsSpace(c[i]);
      assert IsSpace(r[i + 1]) <==> IsSpace(c[i + 1]);
    }
    forall i | 0 <= i < |r| ensures r[i] != '\n' {
      assert r[i] == c[i] || r[i] == ToUpper(c[i]);
    }
  }

  // ---------------------------------------------------------------------------
  // What the capitalisation step does, stated without the scan
  // ---------------------------------------------------------------------------

  /** Where the whitespace-separated token holding position `i` starts. */
  function TokenStart(s: string, i: nat): (k: nat)
    requires i <= |s|
    ensures k <= i
    ensures forall j :: k <= j < i ==> !IsSpace(s[j])
    ensures 0 < k ==> IsSpace(s[k - 1])
    decreases i
  {
    if i == 0 then 0 else if IsSpace(s[i - 1]) then i else TokenStart(s, i - 1)
  }

  /** Position `i` holds the first word character of its token: the character the regular expression upper-cases. */
  predicate MatchStart(s: string, i: nat)
    requires i < |s|
  {
    IsWordChar(s[i]) && forall j :: TokenStart(s, i) <= j < i ==> !IsWordChar(s[j])
  }

  /** A word character has occurred in the current token before position `k`. */
  ghost predicate InMatch(s: string, k: nat)
    requires k <= |s|
  {
    exists j :: TokenStart(s, k) <= j < k && IsWordChar(s[j])
  }

  /** The reference definition: each first word character of a token upper-cased, all else kept. */
  function Capitalized(s: string): (r: string)
    ensures |r| == |s|
  {
    seq(|s|, i requires 0 <= i < |s| => if MatchStart(s, i) then ToUpper(s[i]) else s[i])
  }

  /** How the scan's flag moves from one position to the next. */
  lemma InMatchStep(s: string, k: nat)
    requires k < |s|
    ensures InMatch(s, k + 1) == (!IsSpace(s[k]) && (InMatch(s, k) || IsWordChar(s[k])))
    ensures MatchStart(s, k) == (!IsSpace(s[k]) && !InMatch(s, k) && IsWordChar(s[k]))
  {
    if !IsSpace(s[k]) {
      assert TokenStart(s, k + 1) == TokenStart(s, k);
      if InMatch(s, k) {
        var j :| TokenStart(s, k) <= j < k && IsWordChar(s[j]);
        assert TokenStart(s, k + 1) <= j < k + 1;
      }
      if IsWordChar(s[k]) {
        assert TokenStart(s, k + 1) <= k < k + 1;
      }
    }
  }

  lemma {:induction false} CapitalizeFromSpec(s: string, k: nat)
    requires k <= |s|
    ensures CapitalizeFrom(s[k..], InMatch(s, k)) == Capitalized(s)[k..]
    decreases |s| - k
  {
    if k < |s| {
      InMatchStep(s, k);
      CapitalizeFromSpec(s, k + 1);
      assert s[k..][1..] == s[k + 1..];
      assert Capitalized(s)[k..] == [Capitalized(s)[k]] + Capitalized(s)[k + 1..];
    }
  }

  /** The capitalisation step upper-cases exactly the first word character of each token. */
  lemma CapitalizeSpec(s: string)
    ensures Capitalize(s) == Capitalized(s)
  {
    CapitalizeFromSpec(s, 0);
    assert s[0..] == s;
    assert !InMatch(s, 0);
  }

  /** Two strings with the same whitespace and word-character positions have the same match starts. */
  lemma {:induction false} SameShapeSameTokens(s: string, t: string, i: nat)
    requires |s| == |t| && i <= |s|
    requires forall j :: 0 <= j < |s| ==> (IsSpace(s[j]) <==> IsSpace(t[j]))
    ensures TokenStart(s, i) == TokenStart(t, i)
    decreases i
  {
    if i > 0 {
      SameShapeSameTokens(s, t, i - 1);
    }
  }

  /** Capitalising twice is capitalising once. */
  lemma CapitalizeIdempotent(s: string)
    ensures Capitalize(Capitalize(s)) == Capitalize(s)
  {
    var t := Capitalize(s);
    CapitalizeSpec(s);
    CapitalizeSpec(t);
    forall i | 0 <= i < |s|
      ensures Capitalized(t)[i] == t[i]
    {
      SameShapeSameStarts(s, t, i);
      if MatchStart(s, i) {
        assert t[i] == ToUpper(s[i]);
        UpperTwice(s[i]);
      } else {
        assert t[i] == s[i];
      }
    }
  }

  /** The match starts depend only on where the whitespace and the word characters are. */
  lemma SameShapeSameStarts(s: string, t: string, i: nat)
    requires |s| == |t| && i < |s|
    requires forall j :: 0 <= j < |s| ==> (IsSpace(s[j]) <==> IsSpace(t[j]))
    requires forall j :: 0 <= j < |s| ==> (IsWordChar(s[j]) <==> IsWordChar(t[j]))
    ensures MatchStart(s, i) == MatchStart(t, i)
  {
    SameShapeSameTokens(s, t, i);
  }

  lemma UpperTwice(c: char)
    ensures ToUpper(ToUpper(c)) == ToUpper(c)
  {
  }

  lemma {:induction false} CollapseIdempotent(s: string)
    requires NoAdjacentSpaces(s)
    ensures CollapseSpaces(s) == s
    decreases |s|
  {
    if |s| > 0 {
      assert SpaceRun(s) < 2 by {
        if |s| > 1 {
          assert !(IsSpace(s[0]) && IsSpace(s[1]));
        }
      }
      assert CollapseSpaces(s) == [s[0]] + CollapseSpaces(s[1..]);
      assert NoAdjacentSpaces(s[1..]) by {
        forall i | 0 <= i < |s[1..]| - 1 ensures !(IsSpace(s[1..][i]) && IsSpace(s[1..][i + 1])) {
          assert s[1..][i] == s[i + 1] && s[1..][i + 1] == s[i + 2];
        }
      }
      CollapseIdempotent(s[1..]);
      assert [s[0]] + s[1..] == s;
    }
  }

  /**
   * `formatName` in terms of the reference definitions: the trimmed text, with newlines
   * turned into spaces and whitespace runs collapsed, then each token's first word
   * character upper-cased.
   */
  lemma FormatNameSpec(title: string)
    ensures FormatName(title) == Capitalized(Collapsed(ReplaceNewlines(Trim(title))))
  {
    CollapseSpec(ReplaceNewlines(Trim(title)));
    CapitalizeSpec(CollapseSpaces(ReplaceNewlines(Trim(title))));
  }

  lemma TrimIdempotent(s: string)
    requires Trimmed(s)
    ensures Trim(s) == s
  {
  }

  /** A formatted name is already formatted: formatting it again changes nothing. */
  lemma FormatNameIdempotent(title: string)
    ensures FormatName(FormatName(title)) == FormatName(title)
  {
    var r := FormatName(title);
    TrimIdempotent(r);
    assert ReplaceNewlines(r) == r;
    CollapseIdempotent(r);
    var collapsed := CollapseSpaces(ReplaceNewlines(Trim(title)));
    CapitalizeIdempotent(collapsed);
  }

  // ---------------------------------------------------------------------------
  // Error wrappers and the message reply
  // ---------------------------------------------------------------------------

  /** `throwInternalError`: the resolved value passes through; any rejection becomes a 500. */
  function ThrowInternalError<T, E>(promise: Result<T, E>): (r: Result<T, Failure>)
    ensures promise.Ok? ==> r == Ok(promise.value)
    ensures promise.Err? ==> r == Err(InternalError)
  {
    match promise
    case Ok(v) => Ok(v)
    case Err(_) => Err(InternalError)
  }

  const DuplicatedValue: string := "Duplicated value in database"

  /**
   * `throwDuplicateError`: a rejection with PostgreSQL's unique-violation code 23505 becomes
   * a conflict (with the given message, else a default); any other becomes a bad request
   * carrying the error's own message.
   */
  function ThrowDuplicateError<T>(promise: Result<T, Failure>, message: Option<string>): (r: Result<T, Failure>)
    ensures promise.Ok? ==> r == promise
    ensures promise.Err? && promise.error.Code() == "23505" ==>
      r == Err(Http(Conflict, if message.Some? then message.value else DuplicatedValue))
    ensures promise.Err? && promise.error.Code() != "23505" ==>
      r == Err(Http(BadRequest, promise.error.Message()))
  {
    match promise
    case Ok(v) => Ok(v)
    case Err(e) =>
      if e.Code() == "23505" then Err(Http(Conflict, message.GetOr(DuplicatedValue)))
      else Err(Http(BadRequest, e.Message()))
  }

  /** `generateMessage`: the reply carries the fresh id and exactly the given text. */
  function GenerateMessage(id: string, message: string): (r: Message)
    ensures r.message == message && r.id == id
  {
    Message(id, message)
  }
}
