/**
 * The relay server's connection registry and message dispatch (server.c):
 * a fixed array of at most ten connection handles with a count, appended to
 * when a connection is established, compacted when one closes, and read when
 * a message is broadcast. Writes to a connection are returned as a list of
 * `Write` events instead of being performed.
 */
module Relay {
  import opened Optional
  import opened Auth

  /** `MAX_CLIENTS`. */
  const MaxClients: nat := 10

  /** A connection handle (`struct lws *`); only its identity matters here. */
  class Connection {}

  /** One `lws_write`: the connection written to and the bytes written to it. */
  datatype Write = Write(to: Connection, payload: string)

  /** The reply to a successful authentication request. */
  const ResponseOk: string := "{\"type\":\"auth_resp\",\"status\":\"ok\"}"

  /** The reply to a failed authentication request. */
  const ResponseFail: string := "{\"type\":\"auth_resp\",\"status\":\"fail\"}"

  /** `sends` writes `msg`, whole, to each of `targets` once, in their order. */
  ghost predicate IsFanout(sends: seq<Write>, targets: seq<Connection?>, msg: string)
  {
    && |sends| == |targets|
    && forall i :: 0 <= i < |sends| ==> sends[i].to == targets[i] && sends[i].payload == msg
  }

  /** `s` without its first occurrence of `x`; `s` itself when `x` does not occur. */
  function RemoveFirst<T(==)>(s: seq<T>, x: T): seq<T>
  {
    if s == [] then []
    else if s[0] == x then s[1..]
    else [s[0]] + RemoveFirst(s[1..], x)
  }

  /** Removing the first occurrence at `k` keeps everything before it and shifts everything after it down. */
  lemma {:induction false} RemoveFirstAt<T>(s: seq<T>, x: T, k: nat)
    requires k < |s| && s[k] == x
    requires forall j :: 0 <= j < k ==> s[j] != x
    ensures RemoveFirst(s, x) == s[..k] + s[k + 1..]
  {
    if k > 0 {
      RemoveFirstAt(s[1..], x, k - 1);
      assert s[1..][..k - 1] == s[1..k];
      assert s[..k] == [s[0]] + s[1..k];
    }
  }

  /** Removing an absent element changes nothing. */
  lemma {:induction false} RemoveFirstAbsent<T>(s: seq<T>, x: T)
    requires x !in s
    ensures RemoveFirst(s, x) == s
  {
    if s != [] {
      RemoveFirstAbsent(s[1..], x);
    }
  }

  /** Exactly one copy of `x` goes, and nothing else. */
  lemma {:induction false} RemoveFirstMultiset<T>(s: seq<T>, x: T)
    ensures multiset(RemoveFirst(s, x)) == multiset(s) - multiset{x}
  {
    if s != [] {
      assert s == [s[0]] + s[1..];
      if s[0] != x {
        RemoveFirstMultiset(s[1..], x);
      }
    }
  }

  /** Closing a connection undoes registering it, when it was not registered before. */
  lemma {:induction false} RemoveFirstAfterAppend<T>(s: seq<T>, x: T)
    requires x !in s
    ensures RemoveFirst(s + [x], x) == s
  {
    if s != [] {
      assert (s + [x])[1..] == s[1..] + [x];
      RemoveFirstAfterAppend(s[1..], x);
    }
  }

  /** The static `clients` array and `client_count`. */
  class Registry {
    var clients: array<Connection?>
    var count: nat

    /** The count stays within the capacity; the registered slots hold handles, all others are NULL. */
    ghost predicate Valid()
      reads this, clients
    {
      && clients.Length == MaxClients
      && count <= MaxClients
      && (forall i :: 0 <= i < count ==> clients[i] != null)
      && (forall i :: count <= i < clients.Length ==> clients[i] == null)
    }

    /** The registered connections, in registration order. */
    ghost function Registered(): seq<Connection?>
      reads this, clients
      requires Valid()
    {
      clients[..count]
    }

    /** The zero-initialised array: no connection registered. */
    constructor ()
      ensures Valid() && fresh(clients)
      ensures Registered() == []
    {
      clients := new Connection?[MaxClients](_ => null);
      count := 0;
    }

    /** `LWS_CALLBACK_ESTABLISHED`: append the connection unless the array is full. */
    method Connect(wsi: Connection)
      requires Valid()
      modifies this`count, clients
      ensures Valid()
      ensures old(count) < MaxClients ==>
        count == old(count) + 1 && clients[old(count)] == wsi && Registered() == old(Registered()) + [wsi]
      ensures old(count) == MaxClients ==> count == old(count) && clients[..] == old(clients[..])
    {
      if count < MaxClients {
        clients[count] := wsi;
        count := count + 1;
        assert Registered() == old(Registered()) + [wsi];
      }
    }

    /**
     * `LWS_CALLBACK_CLOSED`: find the first slot holding the connection, shift
     * every later entry down one place, clear the old last slot and decrement
     * the count. An unregistered connection leaves the registry as it was.
     */
    method Close(wsi: Connection)
      requires Valid()
      modifies this`count, clients
      ensures Valid()
      ensures Registered() == RemoveFirst(old(Registered()), wsi)
      ensures wsi in old(Registered()) ==> count == old(count) - 1
      ensures wsi !in old(Registered()) ==> count == old(count) && clients[..] == old(clients[..])
    {
      var i := 0;
      while i < count
        invariant 0 <= i <= count
        invariant count == old(count) && clients[..] == old(clients[..])
        invariant forall k :: 0 <= k < i ==> clients[k] != wsi
      {
        if clients[i] == wsi {
          ghost var before := old(Registered());
          assert forall k :: 0 <= k < i ==> before[k] != wsi;
          var j := i;
          while j < count - 1
            invariant i <= j <= count - 1
            invariant count == old(count)
            invariant forall k :: 0 <= k < i ==> clients[k] == old(clients[k])
            invariant forall k :: i <= k < j ==> clients[k] == old(clients[k + 1])
            invariant forall k :: j <= k < clients.Length ==> clients[k] == old(clients[k])
          {
            clients[j] := clients[j + 1];
            j := j + 1;
          }
          clients[count - 1] := null;
          count := count - 1;
          assert clients[..count] == before[..i] + before[i + 1..] by {
            forall k | 0 <= k < count
              ensures clients[..count][k] == (before[..i] + before[i + 1..])[k]
            {
              if k < i {
                assert clients[k] == before[k];
              } else {
                assert clients[k] == before[k + 1];
              }
            }
          }
          RemoveFirstAt(before, wsi, i);
          return;
        }
        i := i + 1;
      }
      RemoveFirstAbsent(old(Registered()), wsi);
    }

    /** `broadcast_message`: every registered connection, the sender included, is sent the message at its full length. */
    method Broadcast(msg: string) returns (sends: seq<Write>)
      requires Valid()
      ensures IsFanout(sends, Registered(), msg)
    {
      sends := [];
      for i := 0 to count
        invariant IsFanout(sends, clients[..i], msg)
      {
        if clients[i] != null {
          sends := sends + [Write(clients[i], msg)];
        }
      }
    }

    /**
     * `LWS_CALLBACK_RECEIVE`: a message starting with `{"type":"auth"` gets one
     * status reply to its sender and is not forwarded; any other message is
     * broadcast unchanged, whoever sent it and whether or not that sender ever
     * authenticated. When the scan leaves a buffer unassigned, `check_auth`
     * reads whatever it held before: `staleName` and `stalePassword`.
     */
    method Receive(wsi: Connection, msg: string, staleName: string, stalePassword: string)
      returns (sends: seq<Write>)
      requires Valid()
      ensures IsAuthRequest(msg) ==>
        sends == [Write(wsi,
          if Listed(NameArgument(msg, staleName), PasswordArgument(msg, stalePassword))
          then ResponseOk else ResponseFail)]
      ensures ParseRequest(msg).Some? ==>
        var c := ParseRequest(msg).value;
        sends == [Write(wsi, if Listed(c.username, c.password) then ResponseOk else ResponseFail)]
      ensures ScanName(msg).Some? && ScanName(msg).value != "alice" && ScanName(msg).value != "bob" ==>
        sends == [Write(wsi, ResponseFail)]
      ensures !IsAuthRequest(msg) ==> IsFanout(sends, Registered(), msg)
      ensures !IsAuthRequest(msg) && wsi in Registered() ==> Write(wsi, msg) in sends
    {
      if IsAuthRequest(msg) {
        var username, password := staleName, stalePassword;
        match ScanName(msg) {
          case Some(u) => username := u;
          case None =>
        }
        match ParseRequest(msg) {
          case Some(c) =>
            ParseRequestExtendsScanName(msg);
            password := c.password;
          case None =>
        }
        ListedAccounts(username, password);
        var r := CheckAuth(username, password);
        if r != 0 {
          sends := [Write(wsi, ResponseOk)];
        } else {
          sends := [Write(wsi, ResponseFail)];
        }
      } else {
        sends := Broadcast(msg);
      }
    }
  }
}
