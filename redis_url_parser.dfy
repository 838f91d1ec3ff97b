/**
 * `redisUrlParser`: splitting a `REDIS_URL` of the form `scheme://:password@host:port`
 * or `scheme://host:port` into the connection options of the Redis client.
 */
module RedisUrlParser {
  import opened Wrappers
  import opened Errors
  import opened Text
  import opened Numerals

  /** The options handed to the Redis client; a `None` port stands for `NaN`. */
  datatype RedisOptions = RedisOptions(password: Option<string>, host: string, port: Option<int>)

  const PasswordMarker: string := "://:"
  const SchemeMarker: string := "://"

  /** Calling `.split` on `undefined`, which is what indexing past the pieces of a split yields. */
  const UndefinedSplit: Failure := Crash("TypeError: cannot read properties of undefined (reading 'split')")

  /** `parts[i]`: `undefined` past the end. */
  function Piece(parts: seq<string>, i: nat): (r: Option<string>)
    ensures r.Some? <==> i < |parts|
    ensures r.Some? ==> r.value == parts[i]
  {
    if i < |parts| then Some(parts[i]) else None
  }

  /** `parseInt(x, 10)`; `parseInt(undefined)` reads the text "undefined" and gives `NaN`. */
  function ParsePort(x: Option<string>): Option<int> {
    match x
    case None => None
    case Some(s) => ParseInt(s)
  }

  /** `s.split(sep)[0]`: the text before the first `sep`, or all of `s`. */
  function FirstPiece(s: string, sep: string): (r: string)
    requires 0 < |sep|
    ensures |r| <= |s| && r == s[..|r|]
  {
    match FindFrom(s, sep, 0)
    case None => s
    case Some(i) => s[..i]
  }

  /** `s.split(sep)[1]`: the text between the first and the second `sep`; `undefined` without a `sep`. */
  function SecondPiece(s: string, sep: string): (r: Option<string>)
    requires 0 < |sep|
    ensures r.Some? <==> Contains(s, sep)
  {
    match FindFrom(s, sep, 0)
    case None => None
    case Some(i) => Some(FirstPiece(s[i + |sep|..], sep))
  }

  /** The two pieces are the first two elements of `split`, `undefined` past its end. */
  lemma PiecesOfSplit(s: string, sep: string)
    requires 0 < |sep|
    ensures FirstPiece(s, sep) == Split(s, sep)[0]
    ensures SecondPiece(s, sep) == Piece(Split(s, sep), 1)
  {
    SplitHead(s, sep);
    if Contains(s, sep) {
      var i := FindFrom(s, sep, 0).value;
      SplitHead(s[i + |sep|..], sep);
    }
  }

  /** A piece never contains the separator. */
  lemma FirstPieceFree(s: string, c: char)
    ensures c !in FirstPiece(s, [c])
  {
    PiecesOfSplit(s, [c]);
    ContainsChar(Split(s, [c])[0], c);
  }

  /** When `sep` starts with a character absent from `a`, the pieces of `a + sep + b` are `a` and the first piece of `b`. */
  lemma PiecesAt(a: string, sep: string, b: string)
    requires 0 < |sep| && sep[0] !in a
    ensures FirstPiece(a + sep + b, sep) == a
    ensures SecondPiece(a + sep + b, sep) == Some(FirstPiece(b, sep))
  {
    var s := a + sep + b;
    assert OccursAt(s, sep, |a|) by {
      assert s[|a|..|a| + |sep|] == sep;
    }
    forall j: nat | j < |a| ensures !OccursAt(s, sep, j) {
      if j + |sep| <= |s| {
        assert s[j..j + |sep|][0] == a[j];
      }
    }
    assert s[..|a|] == a;
    assert s[|a| + |sep|..] == b;
  }

  /** `s` without `sep` is its own first piece and has no second one. */
  lemma PiecesWhole(s: string, sep: string)
    requires 0 < |sep| && !Contains(s, sep)
    ensures FirstPiece(s, sep) == s && SecondPiece(s, sep) == None
  {
  }

  /**
   * `redisUrlParser(url)`. With a `://:` marker: the password runs from the marker to the
   * next `@`, the host from there to the next `:`, and the port is the piece after it.
   * Without the marker: the host runs from the first `://` to the next `:`, and there is
   * no password. A missing piece is `undefined`, and splitting it throws.
   */
  function ParseRedisUrl(url: string): (r: Result<RedisOptions, Failure>)
    ensures r.Ok? ==> (r.value.password.Some? <==> Contains(url, PasswordMarker))
    ensures r.Ok? ==> ':' !in r.value.host
    ensures r.Ok? && r.value.password.Some? ==> '@' !in r.value.password.value
    ensures r.Err? <==>
      || (Contains(url, PasswordMarker) && !Contains(SecondPiece(url, PasswordMarker).value, "@"))
      || (!Contains(url, PasswordMarker) && !Contains(url, SchemeMarker))
    ensures r.Err? ==> r.error == UndefinedSplit
  {
    if Contains(url, PasswordMarker) then
      match SecondPiece(url, PasswordMarker)
      case None => Err(UndefinedSplit)
      case Some(afterMarker) =>
        match SecondPiece(afterMarker, "@")
        case None => Err(UndefinedSplit)
        case Some(hostAndPort) =>
          FirstPieceFree(afterMarker, '@');
          FirstPieceFree(hostAndPort, ':');
          Ok(RedisOptions(Some(FirstPiece(afterMarker, "@")), FirstPiece(hostAndPort, ":"),
                          ParsePort(SecondPiece(hostAndPort, ":"))))
    else
      match SecondPiece(url, SchemeMarker)
      case None => Err(UndefinedSplit)
      case Some(connectionString) =>
        FirstPieceFree(connectionString, ':');
        Ok(RedisOptions(None, FirstPiece(connectionString, ":"), ParsePort(SecondPiece(connectionString, ":"))))
  }

  /** A `host:digits` tail holds exactly one `:`, which a digit (or nothing) follows. */
  predicate HostPort(t: string, host: string, digits: string) {
    t == host + ":" + digits && ':' !in host && AllDigitsOf(digits, 10)
  }

  lemma HostPortColon(t: string, host: string, digits: string, q: nat)
    requires HostPort(t, host, digits) && q < |t|
    ensures t[q] == ':' <==> q == |host|
  {
    if q > |host| {
      assert t[q] == digits[q - |host| - 1];
      assert IsDigitOf(digits[q - |host| - 1], 10);
    }
  }

  lemma HostPortNoMarkers(t: string, host: string, digits: string)
    requires HostPort(t, host, digits) && 0 < |digits|
    ensures forall j: nat :: !OccursAt(t, PasswordMarker, j)
    ensures forall j: nat :: !OccursAt(t, SchemeMarker, j)
  {
    forall j: nat
      ensures !OccursAt(t, SchemeMarker, j) && !OccursAt(t, PasswordMarker, j)
    {
      if j + 3 <= |t| {
      HostPortColon(t, host, digits, j);
      if j == |host| {
        assert t[j + 1] == digits[0];
        assert IsDigitOf(digits[0], 10);
        assert t[j..j + 3][1] != '/';
        if j + 4 <= |t| {
          HostPortColon(t, host, digits, j + 3);
          assert t[j..j + 4][3] != ':';
        }
      } else {
        assert t[j..j + 3][0] != ':';
        if j + 4 <= |t| {
          assert t[j..j + 4][0] != ':';
        }
      }
      }
    }
  }

  /** `password@host:digits` holds no `://:` when the password holds none. */
  lemma NoMarkerAfterPassword(password: string, host: string, digits: string)
    requires !Contains(password, PasswordMarker) && ':' !in host && 0 < |digits| && AllDigitsOf(digits, 10)
    ensures forall j: nat :: !OccursAt(password + "@" + host + ":" + digits, PasswordMarker, j)
  {
    var t := host + ":" + digits;
    var rest := password + "@" + t;
    assert rest == password + "@" + host + ":" + digits;
    HostPortNoMarkers(t, host, digits);
    forall j: nat ensures !OccursAt(rest, PasswordMarker, j) {
      NoMarkerAcrossAt(password, t, j);
    }
  }

  /** No `://:` starts at `j` in `password@t` when neither side holds one. */
  lemma NoMarkerAcrossAt(password: string, t: string, j: nat)
    requires !Contains(password, PasswordMarker)
    requires forall i: nat :: !OccursAt(t, PasswordMarker, i)
    ensures !OccursAt(password + "@" + t, PasswordMarker, j)
  {
    var rest := password + "@" + t;
    if j + 4 <= |rest| {
      if j + 4 <= |password| {
        assert rest[j..j + 4] == password[j..j + 4];
        assert !OccursAt(password, PasswordMarker, j);
      } else if j <= |password| {
        assert rest[|password|] == '@';
        assert rest[j..j + 4][|password| - j] == '@';
      } else {
        assert rest[j..j + 4] == t[j - |password| - 1..j - |password| + 3];
        assert !OccursAt(t, PasswordMarker, j - |password| - 1);
      }
    }
  }

  /** A decimal numeral holds neither `:` nor `@`. */
  lemma DigitsHaveNoMarks(port: nat)
    ensures ':' !in ToDigits(port) && '@' !in ToDigits(port)
  {
    var digits := ToDigits(port);
    forall q | 0 <= q < |digits| ensures digits[q] != ':' && digits[q] != '@' {
      assert IsDigitOf(digits[q], 10);
    }
  }

  /** The `host:port` tail splits into the host and the decimal port, and holds no `@`. */
  lemma HostPortPieces(host: string, port: nat)
    requires ':' !in host
    ensures var t := host + ":" + ToDigits(port);
      FirstPiece(t, ":") == host && ParsePort(SecondPiece(t, ":")) == Some(port)
      && ('@' !in host ==> !Contains(t, "@"))
  {
    var digits := ToDigits(port);
    var t := host + ":" + digits;
    DigitsHaveNoMarks(port);
    assert FirstPiece(t, ":") == host && SecondPiece(t, ":") == Some(digits) by {
      ContainsChar(digits, ':');
      PiecesAt(host, ":", digits);
      PiecesWhole(digits, ":");
    }
    ParseIntDecimal(port);
    if '@' !in host {
      HostPortNoAt(host, digits);
    }
  }

  lemma HostPortNoAt(host: string, digits: string)
    requires '@' !in host && '@' !in digits
    ensures !Contains(host + ":" + digits, "@")
  {
    var t := host + ":" + digits;
    assert '@' !in t by {
      forall q | 0 <= q < |t| ensures t[q] != '@' {
        if q > |host| {
          assert t[q] == digits[q - |host| - 1];
        }
      }
    }
    ContainsChar(t, '@');
  }

  /** Parsing `scheme://:password@host:port` gives the password, the host and the port back. */
  lemma {:induction false} PasswordRoundTrip(scheme: string, password: string, host: string, port: nat)
    requires ':' !in scheme
    requires '@' !in password && !Contains(password, PasswordMarker)
    requires ':' !in host && '@' !in host
    ensures ParseRedisUrl(scheme + PasswordMarker + password + "@" + host + ":" + ToDigits(port))
         == Ok(RedisOptions(Some(password), host, Some(port)))
  {
    var digits := ToDigits(port);
    var t := host + ":" + digits;
    var rest := password + "@" + t;
    var url := scheme + PasswordMarker + rest;
    assert url == scheme + PasswordMarker + password + "@" + host + ":" + digits;
    assert SecondPiece(url, PasswordMarker) == Some(rest) by {
      assert rest == password + "@" + host + ":" + digits;
      NoMarkerAfterPassword(password, host, digits);
      NotContains(rest, PasswordMarker);
      PiecesAt(scheme, PasswordMarker, rest);
      PiecesWhole(rest, PasswordMarker);
    }
    HostPortPieces(host, port);
    assert SecondPiece(rest, "@") == Some(t) && FirstPiece(rest, "@") == password by {
      PiecesAt(password, "@", t);
      PiecesWhole(t, "@");
    }
  }

  /** Parsing `scheme://host:port` (a non-empty host) gives the host and the port back, and no password. */
  lemma {:induction false} PlainRoundTrip(scheme: string, host: string, port: nat)
    requires ':' !in scheme
    requires 0 < |host| && ':' !in host
    ensures ParseRedisUrl(scheme + SchemeMarker + host + ":" + ToDigits(port))
         == Ok(RedisOptions(None, host, Some(port)))
  {
    var digits := ToDigits(port);
    var t := host + ":" + digits;
    var url := scheme + SchemeMarker + t;
    assert url == scheme + SchemeMarker + host + ":" + digits;
    HostPortNoMarkers(t, host, digits);
    forall j: nat ensures !OccursAt(url, PasswordMarker, j) {
      if j + 4 <= |url| {
        if j < |scheme| {
          assert url[j..j + 4][0] == scheme[j];
        } else if j == |scheme| {
          assert url[j..j + 4][3] == host[0];
        } else if j < |scheme| + 3 {
          assert url[j..j + 4][0] == '/';
        } else {
          assert url[j..j + 4] == t[j - |scheme| - 3..j - |scheme| + 1];
          assert !OccursAt(t, PasswordMarker, j - |scheme| - 3);
        }
      }
    }
    NotContains(url, PasswordMarker);
    NotContains(t, SchemeMarker);
    PiecesAt(scheme, SchemeMarker, t);
    PiecesWhole(t, SchemeMarker);
    HostPortPieces(host, port);
  }
}
