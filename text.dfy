/**
 * The JavaScript string primitives the services rely on: the whitespace and word
 * character classes of regular expressions, `trim`, ASCII case mapping, `includes`
 * and `split` with a non-empty separator.
 */
module Text {
  import opened Wrappers

  /** JavaScript's WhiteSpace and LineTerminator code points: what `\s` matches and `trim` removes. */
  predicate IsSpace(c: char) {
    var n := c as int;
    (9 <= n <= 13) || n == 0x20 || n == 0xA0 || n == 0x1680 || (0x2000 <= n <= 0x200A)
    || n == 0x2028 || n == 0x2029 || n == 0x202F || n == 0x205F || n == 0x3000 || n == 0xFEFF
  }

  /** The line terminators, which `.` in a regular expression does not match. */
  predicate IsLineTerminator(c: char) {
    c == '\n' || c == '\r' || c as int == 0x2028 || c as int == 0x2029
  }

  /** `\w`: an ASCII letter, digit or underscore. */
  predicate IsWordChar(c: char) {
    ('a' <= c <= 'z') || ('A' <= c <= 'Z') || ('0' <= c <= '9') || c == '_'
  }

  function ToUpper(c: char): char {
    if 'a' <= c <= 'z' then (c as int - 32) as char else c
  }

  function ToLower(c: char): char {
    if 'A' <= c <= 'Z' then (c as int + 32) as char else c
  }

  /** `s` holds no upper-case ASCII letter. */
  predicate NoUpper(s: string) {
    forall i :: 0 <= i < |s| ==> !('A' <= s[i] <= 'Z')
  }

  /** `toLocaleLowerCase`, restricted to ASCII letters: no upper-case letter is left, and text without one is kept. */
  function LowerCase(s: string): (r: string)
    ensures |r| == |s|
    ensures forall i :: 0 <= i < |s| ==> r[i] == ToLower(s[i])
    ensures NoUpper(r)
    ensures NoUpper(s) ==> r == s
  {
    seq(|s|, i requires 0 <= i < |s| => ToLower(s[i]))
  }

  /** `trimStart`: drops the leading whitespace and nothing else. */
  function TrimStart(s: string): (r: string)
    ensures |r| <= |s| && r == s[|s| - |r|..]
    ensures forall i :: 0 <= i < |s| - |r| ==> IsSpace(s[i])
    ensures |r| > 0 ==> !IsSpace(r[0])
    decreases |s|
  {
    if |s| > 0 && IsSpace(s[0]) then
      var r := TrimStart(s[1..]);
      SpaceBeforeSuffix(s, s[1..], r);
      r
    else s
  }

  /** A suffix of the tail of `s` after only whitespace is a suffix of `s` after only whitespace. */
  lemma SpaceBeforeSuffix(s: string, tail: string, r: string)
    requires 0 < |s| && IsSpace(s[0]) && tail == s[1..]
    requires |r| <= |tail| && r == tail[|tail| - |r|..]
    requires forall i :: 0 <= i < |tail| - |r| ==> IsSpace(tail[i])
    ensures r == s[|s| - |r|..]
    ensures forall i :: 0 <= i < |s| - |r| ==> IsSpace(s[i])
  {
    forall i | 0 < i < |s| - |r| ensures IsSpace(s[i]) {
      assert s[i] == tail[i - 1];
    }
  }

  /** `trimEnd`: drops the trailing whitespace and nothing else. */
  function TrimEnd(s: string): (r: string)
    ensures |r| <= |s| && r == s[..|r|]
    ensures forall i :: |r| <= i < |s| ==> IsSpace(s[i])
    ensures |r| > 0 ==> !IsSpace(r[|r| - 1])
    decreases |s|
  {
    if |s| > 0 && IsSpace(s[|s| - 1]) then
      var r := TrimEnd(s[..|s| - 1]);
      SpaceAfterPrefix(s, s[..|s| - 1], r);
      r
    else s
  }

  /** A prefix of the front of `s` before only whitespace is a prefix of `s` before only whitespace. */
  lemma SpaceAfterPrefix(s: string, front: string, r: string)
    requires 0 < |s| && IsSpace(s[|s| - 1]) && front == s[..|s| - 1]
    requires |r| <= |front| && r == front[..|r|]
    requires forall i :: |r| <= i < |front| ==> IsSpace(front[i])
    ensures r == s[..|r|]
    ensures forall i :: |r| <= i < |s| ==> IsSpace(s[i])
  {
    forall i | |r| <= i < |s| - 1 ensures IsSpace(s[i]) {
      assert s[i] == front[i];
    }
  }

  /** `r` is the slice of `s` at `a`, and everything outside it is whitespace. */
  predicate DropsOnlySpace(s: string, r: string, a: nat) {
    && a + |r| <= |s| && r == s[a..a + |r|]
    && (forall i :: 0 <= i < a ==> IsSpace(s[i]))
    && (forall i :: a + |r| <= i < |s| ==> IsSpace(s[i]))
  }

  /** A prefix `r` of a suffix `t` of `s`, with whitespace around both cuts, drops only whitespace. */
  lemma DropsAroundSlice(s: string, t: string, r: string)
    requires |t| <= |s| && t == s[|s| - |t|..]
    requires forall i :: 0 <= i < |s| - |t| ==> IsSpace(s[i])
    requires |r| <= |t| && r == t[..|r|]
    requires forall i :: |r| <= i < |t| ==> IsSpace(t[i])
    ensures DropsOnlySpace(s, r, |s| - |t|)
  {
    var a := |s| - |t|;
    assert r == s[a..a + |r|];
    forall i | a + |r| <= i < |s| ensures IsSpace(s[i]) {
      assert s[i] == t[i - a];
    }
  }

  /** `trim`: a slice of `s` from which only leading and trailing whitespace was dropped. */
  function Trim(s: string): (r: string)
    ensures |r| <= |s|
    ensures |r| > 0 ==> !IsSpace(r[0]) && !IsSpace(r[|r| - 1])
    ensures exists a: nat :: DropsOnlySpace(s, r, a)
  {
    var t := TrimStart(s);
    DropsAroundSlice(s, t, TrimEnd(t));
    TrimEnd(t)
  }

  /** Trimming text without upper-case letters leaves none. */
  lemma TrimKeepsNoUpper(s: string)
    requires NoUpper(s)
    ensures NoUpper(Trim(s))
  {
    var r := Trim(s);
    var a: nat :| DropsOnlySpace(s, r, a);
    forall i | 0 <= i < |r| ensures !('A' <= r[i] <= 'Z') {
      assert r[i] == s[a + i];
    }
  }

  /** Text that neither starts nor ends with whitespace is its own trim. */
  lemma TrimFixed(s: string)
    requires |s| > 0 ==> !IsSpace(s[0]) && !IsSpace(s[|s| - 1])
    ensures Trim(s) == s
  {
    assert TrimStart(s) == s;
    assert TrimEnd(s) == s;
  }

  /** `sep` starts at index `i` of `s`. */
  predicate OccursAt(s: string, sep: string, i: nat) {
    i + |sep| <= |s| && s[i..i + |sep|] == sep
  }

  /** `s.indexOf(sep, i)`: the first occurrence of `sep` at or after `i`. */
  function FindFrom(s: string, sep: string, i: nat): (r: Option<nat>)
    requires 0 < |sep|
    ensures r.Some? ==> i <= r.value && OccursAt(s, sep, r.value)
    ensures forall j: nat :: i <= j && (r.None? || j < r.value) ==> !OccursAt(s, sep, j)
    decreases |s| - i
  {
    if i + |sep| > |s| then None
    else if s[i..i + |sep|] == sep then Some(i)
    else FindFrom(s, sep, i + 1)
  }

  /** `s.includes(sep)`. */
  predicate Contains(s: string, sep: string)
    requires 0 < |sep|
  {
    FindFrom(s, sep, 0).Some?
  }

  /** `includes` finds `sep` exactly when it starts somewhere in `s`. */
  lemma ContainsOccurs(s: string, sep: string)
    requires 0 < |sep|
    ensures Contains(s, sep) <==> exists j: nat :: OccursAt(s, sep, j)
  {
  }

  /** The inverse of `split`: `parts.join(sep)`. */
  function Join(parts: seq<string>, sep: string): string
    requires 0 < |parts|
    decreases |parts|
  {
    if |parts| == 1 then parts[0] else parts[0] + sep + Join(parts[1..], sep)
  }

  /** `s.split(sep)` for a non-empty separator: the pieces between successive occurrences. */
  function Split(s: string, sep: string): (parts: seq<string>)
    requires 0 < |sep|
    ensures 0 < |parts|
    ensures Join(parts, sep) == s
    ensures forall k :: 0 <= k < |parts| ==> !Contains(parts[k], sep)
    decreases |s|
  {
    match FindFrom(s, sep, 0)
    case None => [s]
    case Some(i) =>
      var head := s[..i];
      var rest := Split(s[i + |sep|..], sep);
      NoOccurrenceInPrefix(s, sep, i);
      assert ([head] + rest)[1..] == rest;
      assert s == head + sep + s[i + |sep|..] by {
        assert s[i..i + |sep|] == sep;
      }
      [head] + rest
  }

  /** A prefix of `s` that ends before the first occurrence of `sep` does not contain `sep`. */
  lemma NoOccurrenceInPrefix(s: string, sep: string, i: nat)
    requires 0 < |sep| && i <= |s|
    requires forall j: nat :: j < i ==> !OccursAt(s, sep, j)
    ensures !Contains(s[..i], sep)
  {
    var r := FindFrom(s[..i], sep, 0);
    if r.Some? {
      var j := r.value;
      assert s[..i][j..j + |sep|] == s[j..j + |sep|];
      assert OccursAt(s, sep, j);
    }
  }

  /** The first piece of a split is a prefix of the input; a second piece exists exactly when `sep` occurs. */
  lemma SplitHead(s: string, sep: string)
    requires 0 < |sep|
    ensures |Split(s, sep)[0]| <= |s| && Split(s, sep)[0] == s[..|Split(s, sep)[0]|]
    ensures |Split(s, sep)| > 1 <==> Contains(s, sep)
    ensures !Contains(s, sep) ==> Split(s, sep) == [s]
    ensures Contains(s, sep) ==>
      var i := |Split(s, sep)[0]|;
      FindFrom(s, sep, 0) == Some(i) && OccursAt(s, sep, i) && Split(s, sep)[1..] == Split(s[i + |sep|..], sep)
  {
  }

  /** For a one-character separator, containment is membership. */
  lemma ContainsChar(s: string, c: char)
    ensures Contains(s, [c]) <==> c in s
  {
    if c in s {
      var i :| 0 <= i < |s| && s[i] == c;
      assert OccursAt(s, [c], i) by {
        assert s[i..i + 1] == [c];
      }
    }
    if Contains(s, [c]) {
      var v := FindFrom(s, [c], 0).value;
      assert s[v..v + 1][0] == s[v];
    }
  }

  /** `s` does not contain `sep` when `sep` starts nowhere in `s`. */
  lemma NotContains(s: string, sep: string)
    requires 0 < |sep|
    requires forall j: nat :: !OccursAt(s, sep, j)
    ensures !Contains(s, sep)
  {
  }

  /** When the first character of `sep` does not occur in `a`, the first piece of `a + sep + b` is `a`. */
  lemma {:induction false} SplitAt(a: string, sep: string, b: string)
    requires 0 < |sep| && sep[0] !in a
    ensures Split(a + sep + b, sep) == [a] + Split(b, sep)
  {
    var s := a + sep + b;
    assert OccursAt(s, sep, |a|) by {
      assert s[|a|..|a| + |sep|] == sep;
    }
    assert FindFrom(s, sep, 0) == Some(|a|);
    assert s[..|a|] == a;
    assert s[|a| + |sep|..] == b;
  }

  /** When the first character of `sep` does not occur in `a`, `a` splits into itself. */
  lemma SplitWhole(a: string, sep: string)
    requires 0 < |sep| && sep[0] !in a
    ensures Split(a, sep) == [a]
  {
  }

  /** Joining pieces free of a one-character separator and splitting again gives the pieces back. */
  lemma {:induction false} SplitJoin(parts: seq<string>, c: char)
    requires 0 < |parts|
    requires forall k :: 0 <= k < |parts| ==> c !in parts[k]
    ensures Split(Join(parts, [c]), [c]) == parts
    decreases |parts|
  {
    if |parts| == 1 {
      SplitWhole(parts[0], [c]);
    } else {
      SplitJoin(parts[1..], c);
      SplitAt(parts[0], [c], Join(parts[1..], [c]));
      assert [parts[0]] + parts[1..] == parts;
    }
  }

  /** Every character of a join comes from a piece or from the separator. */
  lemma {:induction false} JoinChars(parts: seq<string>, sep: string, P: char -> bool)
    requires 0 < |parts|
    requires forall k, i :: 0 <= k < |parts| && 0 <= i < |parts[k]| ==> P(parts[k][i])
    requires forall i :: 0 <= i < |sep| ==> P(sep[i])
    ensures forall i :: 0 <= i < |Join(parts, sep)| ==> P(Join(parts, sep)[i])
    decreases |parts|
  {
    if |parts| > 1 {
      JoinChars(parts[1..], sep, P);
      var rest := Join(parts[1..], sep);
      var whole := parts[0] + sep + rest;
      forall i | 0 <= i < |whole| ensures P(whole[i]) {
        if i < |parts[0]| {
          assert whole[i] == parts[0][i];
        } else if i < |parts[0]| + |sep| {
          assert whole[i] == sep[i - |parts[0]|];
        } else {
          assert whole[i] == rest[i - |parts[0]| - |sep|];
        }
      }
    }
  }
}
