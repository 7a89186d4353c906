/**
 * The relay server's authentication: the credential table with its NULL
 * sentinel, the linear search `check_auth`, and the `sscanf` that pulls the
 * user name and password out of an authentication request (server.c).
 */
module Auth {
  import opened Optional

  /** A row of `authorized_users`; `Sentinel` is the `{NULL, NULL}` row that ends the table. */
  datatype User = User(username: string, password: string) | Sentinel

  /** The credential table: two accounts, then the sentinel. */
  const AuthorizedUsers: seq<User> := [User("alice", "1234"), User("bob", "abcd"), Sentinel]

  /** Row `i` is reached by the search: no sentinel at or before it. */
  predicate BeforeSentinel(i: nat)
  {
    i < |AuthorizedUsers| && forall k :: 0 <= k <= i ==> AuthorizedUsers[k].User?
  }

  /** Some row before the sentinel holds exactly this user name and this password. */
  ghost predicate Listed(username: string, password: string)
  {
    exists i: nat :: BeforeSentinel(i) && AuthorizedUsers[i] == User(username, password)
  }

  /**
   * `check_auth`: walks the table until the sentinel and answers 1 at the
   * first row whose name and password both compare equal, 0 otherwise.
   * Strings here are the characters before the C string's NUL, so `strcmp`
   * equality is string equality; `ParseRequest` never yields a NUL.
   */
  method CheckAuth(username: string, password: string) returns (r: int)
    ensures r == 0 || r == 1
    ensures r == 1 <==> Listed(username, password)
  {
    var i := 0;
    while AuthorizedUsers[i].User?
      invariant 0 <= i < |AuthorizedUsers|
      invariant forall k :: 0 <= k < i ==> AuthorizedUsers[k].User?
      invariant forall k :: 0 <= k < i ==> AuthorizedUsers[k] != User(username, password)
      decreases |AuthorizedUsers| - i
    {
      if AuthorizedUsers[i].username == username && AuthorizedUsers[i].password == password {
        assert BeforeSentinel(i) && AuthorizedUsers[i] == User(username, password);
        return 1;
      }
      i := i + 1;
    }
    return 0;
  }

  /** Exactly alice/1234 and bob/abcd are accepted. */
  lemma ListedAccounts(username: string, password: string)
    ensures Listed(username, password) <==>
      (username == "alice" && password == "1234") || (username == "bob" && password == "abcd")
  {
    if username == "alice" && password == "1234" {
      assert BeforeSentinel(0) && AuthorizedUsers[0] == User(username, password);
    } else if username == "bob" && password == "abcd" {
      assert BeforeSentinel(1) && AuthorizedUsers[1] == User(username, password);
    }
  }

  // ---------------------------------------------------------------------------
  // Recognising and parsing an authentication request
  // ---------------------------------------------------------------------------

  /** The 14 characters `strncmp` compares: `{"type":"auth"`. */
  const AuthPrefix: string := "{\"type\":\"auth\""

  /** The literal text of the `sscanf` format before the user name. */
  const RequestHead: string := "{\"type\":\"auth\",\"username\":\""

  /** The literal text of the format between the user name and the password. */
  const RequestMiddle: string := "\",\"password\":\""

  /** The literal text of the format after the password. */
  const RequestTail: string := "\"}"

  /** The width of each `%63[^"]` conversion (the buffers hold 64 bytes). */
  const FieldWidth: nat := 63

  predicate StartsWith(s: string, prefix: string)
  {
    |prefix| <= |s| && s[..|prefix|] == prefix
  }

  /** A message takes the authentication branch when it starts with `AuthPrefix`. */
  predicate IsAuthRequest(msg: string)
    ensures IsAuthRequest(msg) <==> 14 <= |msg| && forall k :: 0 <= k < 14 ==> msg[k] == AuthPrefix[k]
    ensures StartsWith(msg, RequestHead) ==> IsAuthRequest(msg)
  {
    assert RequestHead[..|AuthPrefix|] == AuthPrefix;
    assert StartsWith(msg, RequestHead) ==> msg[..|AuthPrefix|] == RequestHead[..|AuthPrefix|];
    StartsWith(msg, AuthPrefix)
  }

  /** `%[^"]` accepts every character except the double quote; the string's NUL ends the input. */
  predicate InField(c: char)
  {
    c != '"' && c != '\0'
  }

  /** How many characters a `%<width>[^"]` conversion consumes from the front of `s`. */
  function FieldLength(s: string, width: nat): (n: nat)
    ensures n <= width && n <= |s|
    ensures forall k :: 0 <= k < n ==> InField(s[k])
    ensures n < width && n < |s| ==> !InField(s[n])
  {
    if width == 0 || s == [] || !InField(s[0]) then 0 else 1 + FieldLength(s[1..], width - 1)
  }

  datatype Credentials = Credentials(username: string, password: string)

  /**
   * The `sscanf` of an authentication request: `Some` exactly when both
   * conversions are assigned. A conversion that matches no character, or a
   * literal that does not match, stops the scan; a password longer than the
   * field width is cut to its first 63 characters, since nothing after the
   * second conversion decides whether it was assigned.
   */
  function ParseRequest(msg: string): (r: Option<Credentials>)
    ensures r.Some? ==> IsAuthRequest(msg)
    ensures r.Some? ==>
      var u, p := r.value.username, r.value.password;
      && 1 <= |u| <= FieldWidth && 1 <= |p| <= FieldWidth
      && (forall k :: 0 <= k < |u| ==> InField(u[k]))
      && (forall k :: 0 <= k < |p| ==> InField(p[k]))
      && StartsWith(msg, RequestHead + u + RequestMiddle + p)
  {
    if !StartsWith(msg, RequestHead) then None
    else
      var rest := msg[|RequestHead|..];
      var n := FieldLength(rest, FieldWidth);
      if n == 0 then None
      else
        var after := rest[n..];
        if !StartsWith(after, RequestMiddle) then None
        else
          var pw := after[|RequestMiddle|..];
          var m := FieldLength(pw, FieldWidth);
          if m == 0 then None
          else
            assert msg == RequestHead + rest[..n] + RequestMiddle + pw;
            Some(Credentials(rest[..n], pw[..m]))
  }

  /**
   * The first conversion alone: the user name, when `sscanf` assigns it. It is
   * assigned even when the rest of the scan then fails.
   */
  function ScanName(msg: string): (r: Option<string>)
    ensures r.Some? ==> IsAuthRequest(msg)
    ensures r.Some? ==> 1 <= |r.value| <= FieldWidth && StartsWith(msg, RequestHead + r.value)
    ensures r.Some? ==> forall k :: 0 <= k < |r.value| ==> InField(r.value[k])
  {
    if !StartsWith(msg, RequestHead) then None
    else
      var rest := msg[|RequestHead|..];
      var n := FieldLength(rest, FieldWidth);
      if n == 0 then None
      else
        assert msg[..|RequestHead| + n] == RequestHead + rest[..n];
        Some(rest[..n])
  }

  /** A full scan assigns the same user name as the first conversion alone. */
  lemma ParseRequestExtendsScanName(msg: string)
    requires ParseRequest(msg).Some?
    ensures ScanName(msg) == Some(ParseRequest(msg).value.username)
  {
  }

  /**
   * The name read is the whole field: the first conversion stops only at the
   * 63-character cap, at the end of the message, or at a `"` or NUL.
   */
  lemma ScanNameReadsWholeName(msg: string)
    requires ScanName(msg).Some?
    ensures var n := |RequestHead| + |ScanName(msg).value|;
      |ScanName(msg).value| == FieldWidth || n == |msg| || !InField(msg[n])
  {
    var rest := msg[|RequestHead|..];
    assert ScanName(msg).value == rest[..FieldLength(rest, FieldWidth)];
  }

  /**
   * A name field of 1 to 63 plain characters after the opening literal is
   * found, whatever follows it, as long as a stop character or the end does.
   */
  lemma ScanNameOfField(u: string, rest: string)
    requires FitsField(u)
    requires rest == [] || !InField(rest[0])
    ensures ScanName(RequestHead + u + rest) == Some(u)
  {
    var msg := RequestHead + u + rest;
    assert msg[..|RequestHead|] == RequestHead;
    assert msg[|RequestHead|..] == u + rest;
    FieldLengthOfRun(u, rest, FieldWidth);
  }

  /**
   * The user name `check_auth` is handed: the scanned one, or `stale`, what the
   * uninitialised buffer held, when the first conversion was not assigned.
   */
  function NameArgument(msg: string, stale: string): (r: string)
    ensures ScanName(msg).None? ==> r == stale
    ensures ScanName(msg).Some? ==> 1 <= |r| <= FieldWidth && StartsWith(msg, RequestHead + r)
    ensures ParseRequest(msg).Some? ==> r == ParseRequest(msg).value.username
  {
    match ScanName(msg)
    case Some(u) => u
    case None => stale
  }

  /** The password `check_auth` is handed: the scanned one, or what the uninitialised buffer held. */
  function PasswordArgument(msg: string, stale: string): (r: string)
    ensures ParseRequest(msg).None? ==> r == stale
    ensures ParseRequest(msg).Some? ==>
              1 <= |r| <= FieldWidth && StartsWith(msg, RequestHead + NameArgument(msg, stale) + RequestMiddle + r)
  {
    match ParseRequest(msg)
    case Some(c) => c.password
    case None => stale
  }

  /**
   * The password is the whole field: the scan stops only at the 63-character
   * cap, at the end of the message, or at a `"` or NUL.
   */
  lemma ParseRequestReadsWholePassword(msg: string)
    requires ParseRequest(msg).Some?
    ensures var c := ParseRequest(msg).value;
      var n := |RequestHead| + |c.username| + |RequestMiddle| + |c.password|;
      |c.password| == FieldWidth || n == |msg| || !InField(msg[n])
  {
    var rest := msg[|RequestHead|..];
    var u := FieldLength(rest, FieldWidth);
    var pw := rest[u..][|RequestMiddle|..];
    assert pw == msg[|RequestHead| + u + |RequestMiddle|..];
    var m := FieldLength(pw, FieldWidth);
    assert ParseRequest(msg).value == Credentials(rest[..u], pw[..m]);
    assert |rest[..u]| == u && |pw[..m]| == m;
    assert m < FieldWidth && m < |pw| ==> msg[|RequestHead| + u + |RequestMiddle| + m] == pw[m];
  }

  /**
   * The request text for the given credentials. script.js sends the same text
   * through `JSON.stringify` when neither field holds a character JSON escapes.
   */
  function Request(c: Credentials): string
  {
    RequestHead + c.username + RequestMiddle + c.password + RequestTail
  }

  ghost predicate FitsField(s: string)
  {
    1 <= |s| <= FieldWidth && forall k :: 0 <= k < |s| ==> InField(s[k])
  }

  /** A conversion stops exactly at the end of a run of field characters followed by a stop character. */
  lemma {:induction false} FieldLengthOfRun(run: string, rest: string, width: nat)
    requires |run| <= width
    requires forall k :: 0 <= k < |run| ==> InField(run[k])
    requires rest == [] || !InField(rest[0])
    ensures FieldLength(run + rest, width) == |run|
    ensures (run + rest)[..|run|] == run && (run + rest)[|run|..] == rest
  {
    if run != [] {
      assert (run + rest)[1..] == run[1..] + rest;
      assert (run + rest)[0] == run[0];
      FieldLengthOfRun(run[1..], rest, width - 1);
      assert (run + rest)[..|run|] == [run[0]] + (run[1..] + rest)[..|run| - 1];
    }
  }

  /** A conversion never consumes more than the field width, whatever follows. */
  lemma FieldLengthOfLongRun(run: string, rest: string, width: nat)
    requires width <= |run|
    requires forall k :: 0 <= k < |run| ==> InField(run[k])
    ensures FieldLength(run + rest, width) == width
  {
  }

  /** A message built from the format's literals splits back at the head and after the middle literal. */
  lemma RequestSplits(u: string, p: string, tail: string)
    ensures var msg := RequestHead + u + RequestMiddle + p + tail;
      StartsWith(msg, RequestHead) && msg[|RequestHead|..] == u + (RequestMiddle + p + tail)
    ensures StartsWith(RequestMiddle + p + tail, RequestMiddle)
    ensures (RequestMiddle + p + tail)[|RequestMiddle|..] == p + tail
  {
    assert RequestHead + u + RequestMiddle + p + tail == RequestHead + (u + (RequestMiddle + p + tail));
    assert RequestMiddle + p + tail == RequestMiddle + (p + tail);
  }

  /**
   * Whatever follows the password field, if it starts with a stop character or
   * is empty, does not affect the scan: the trailing literal is never checked.
   */
  lemma ParseRequestIgnoresTail(c: Credentials, tail: string)
    requires FitsField(c.username) && FitsField(c.password)
    requires tail == [] || !InField(tail[0])
    ensures ParseRequest(RequestHead + c.username + RequestMiddle + c.password + tail) == Some(c)
  {
    var u, p := c.username, c.password;
    RequestSplits(u, p, tail);
    FieldLengthOfRun(u, RequestMiddle + p + tail, FieldWidth);
    FieldLengthOfRun(p, tail, FieldWidth);
  }

  /** Parsing a well-formed request gives back the credentials it was built from. */
  lemma ParseRequestRoundTrip(c: Credentials)
    requires FitsField(c.username) && FitsField(c.password)
    ensures ParseRequest(Request(c)) == Some(c)
  {
    ParseRequestIgnoresTail(c, RequestTail);
  }

  /** A password longer than the field width is read as its first 63 characters. */
  lemma ParseRequestCutsPassword(username: string, password: string)
    requires FitsField(username)
    requires |password| > FieldWidth && forall k :: 0 <= k < |password| ==> InField(password[k])
    ensures ParseRequest(Request(Credentials(username, password)))
         == Some(Credentials(username, password[..FieldWidth]))
  {
    var msg := Request(Credentials(username, password));
    var rest := msg[|RequestHead|..];
    assert msg[..|RequestHead|] == RequestHead;
    assert rest == username + (RequestMiddle + password + RequestTail);
    FieldLengthOfRun(username, RequestMiddle + password + RequestTail, FieldWidth);
    var after := rest[|username|..];
    assert after == RequestMiddle + (password + RequestTail);
    var pw := after[|RequestMiddle|..];
    assert pw == password + RequestTail;
    FieldLengthOfLongRun(password, RequestTail, FieldWidth);
    assert rest[..|username|] == username;
    assert pw[..FieldWidth] == password[..FieldWidth];
  }

  /** A user name longer than the field width makes the scan fail: the literal after it cannot match. */
  lemma ParseRequestRejectsLongName(username: string, password: string)
    requires |username| > FieldWidth && forall k :: 0 <= k < |username| ==> InField(username[k])
    ensures ParseRequest(Request(Credentials(username, password))) == None
  {
    var msg := Request(Credentials(username, password));
    assert msg[..|RequestHead|] == RequestHead;
    var rest := msg[|RequestHead|..];
    assert rest == username + (RequestMiddle + password + RequestTail);
    FieldLengthOfLongRun(username, RequestMiddle + password + RequestTail, FieldWidth);
    var after := rest[FieldWidth..];
    assert after[0] == username[FieldWidth];
    assert !StartsWith(after, RequestMiddle) by {
      assert after[..|RequestMiddle|][0] == after[0];
    }
  }
}
