/** The in-memory publish/subscribe registry of ritual events: a map from a
    group key to the set of open event-stream responses of that group, the
    frame format of one server-sent event, and the fan-out of a state
    frame to every response of a group. */
module RitualEvents {

  // ---------------------------------------------------------------------
  // Frames

  /** The exact text one `sendSse` call writes: an `event:` line, a `data:`
      line carrying the JSON text, and the blank line that ends the event. */
  function Frame(event: string, json: string): (f: string)
    ensures |f| == |event| + |json| + 16
    ensures f[..7] == "event: " && f[|f| - 2..] == "\n\n"
  {
    "event: " + event + "\n" + "data: " + json + "\n" + "\n"
  }

  /** The length of the first line of `s`: the index of its first line
      break, or |s| when it has none. */
  function LineEnd(s: string): (n: nat)
    ensures n <= |s|
  {
    if |s| == 0 || s[0] == '\n' then 0 else 1 + LineEnd(s[1..])
  }

  lemma {:induction false} LineEndAfter(line: string, rest: string)
    requires '\n' !in line
    ensures LineEnd(line + "\n" + rest) == |line|
  {
    if |line| > 0 {
      assert (line + "\n" + rest)[1..] == line[1..] + "\n" + rest;
      LineEndAfter(line[1..], rest);
    }
  }

  /** The event name and the data of a frame can be read back from it: no
      two (name, data) pairs whose name has no line break share a frame. */
  lemma FrameInjective(e1: string, j1: string, e2: string, j2: string)
    requires '\n' !in e1 && '\n' !in e2
    requires Frame(e1, j1) == Frame(e2, j2)
    ensures e1 == e2 && j1 == j2
  {
    var f := Frame(e1, j1);
    assert f[7..] == e1 + "\n" + ("data: " + j1 + "\n\n");
    assert f[7..] == e2 + "\n" + ("data: " + j2 + "\n\n");
    LineEndAfter(e1, "data: " + j1 + "\n\n");
    LineEndAfter(e2, "data: " + j2 + "\n\n");
    assert e1 == f[7..7 + |e1|];
    assert e2 == f[7..7 + |e2|];
    assert j1 == f[14 + |e1|..14 + |e1| + |j1|];
    assert j2 == f[14 + |e2|..14 + |e2| + |j2|];
  }

  // ---------------------------------------------------------------------
  // Group keys

  /** A group id as the registry receives it: a number from the database
      or the text of a route parameter. */
  datatype GroupRef = Num(n: int) | Text(s: string)

  function Digit(d: nat): (c: char)
    requires d < 10
    ensures '0' <= c <= '9'
  {
    "0123456789"[d]
  }

  /** The decimal text of a natural number, as `String(n)` renders it. */
  function NatText(n: nat): (s: string)
    ensures |s| > 0
    ensures forall i :: 0 <= i < |s| ==> '0' <= s[i] <= '9'
    decreases n
  {
    if n < 10 then [Digit(n)] else NatText(n / 10) + [Digit(n % 10)]
  }

  /** `String(n)` for an integer. */
  function IntText(n: int): string
  {
    if n < 0 then "-" + NatText(-n) else NatText(n)
  }

  /** The value of a string of decimal digits. */
  function DigitsValue(s: string): int
  {
    if |s| == 0 then 0
    else DigitsValue(s[..|s| - 1]) * 10 + ((s[|s| - 1] as int) - ('0' as int))
  }

  /** The value of the decimal text of an integer, with its optional sign. */
  function IntValue(s: string): int
  {
    if |s| > 0 && s[0] == '-' then -DigitsValue(s[1..]) else DigitsValue(s)
  }

  /** Reading back the decimal text of a number gives the number. */
  lemma {:induction false} NatTextValue(n: nat)
    ensures DigitsValue(NatText(n)) == n
    decreases n
  {
    if n >= 10 {
      NatTextValue(n / 10);
      var s := NatText(n);
      assert s[..|s| - 1] == NatText(n / 10);
    }
  }

  /** `String(n)` can be read back, sign included. */
  lemma IntTextValue(n: int)
    ensures IntValue(IntText(n)) == n
  {
    var s := IntText(n);
    if n < 0 {
      var digits := NatText(-n);
      assert s == "-" + digits;
      assert s[1..] == digits;
      NatTextValue(-n);
      assert IntValue(s) == -DigitsValue(digits);
    } else {
      assert s == NatText(n);
      assert '0' <= s[0] <= '9';
      NatTextValue(n);
      assert IntValue(s) == DigitsValue(s);
    }
  }

  /** ensureSet's key: `String(groupId)`. */
  function Key(g: GroupRef): string
  {
    match g
    case Num(n) => IntText(n)
    case Text(s) => s
  }

  /** The number and its decimal text address the same set, and two
      different numeric ids never share one. */
  lemma KeyAgreement(a: int, b: int)
    ensures Key(Num(a)) == Key(Text(IntText(a)))
    ensures Key(Num(a)) == Key(Num(b)) <==> a == b
  {
    IntTextValue(a);
    IntTextValue(b);
  }

  // ---------------------------------------------------------------------
  // Responses

  /** An open event-stream response. `broken` stands for a connection whose
      writes throw. */
  class Response {
    var output: string
    var broken: bool

    constructor (broken: bool)
      ensures output == [] && this.broken == broken
    {
      output := [];
      this.broken := broken;
    }

    /** `res.write`: appends the chunk, or throws (reported as `false`)
      without writing when the connection is broken. */
    method Write(chunk: string) returns (ok: bool)
      modifies this
      ensures ok == !broken && broken == old(broken)
      ensures output == old(output) + (if ok then chunk else [])
    {
      if broken {
        return false;
      }
      output := output + chunk;
      ok := true;
    }
  }

  /** sendSse: the event line, then the data line with the blank line. A
      throw from the first write propagates before the second. */
  method SendSse(res: Response, event: string, json: string) returns (ok: bool)
    modifies res
    ensures ok == !res.broken && res.broken == old(res.broken)
    ensures res.output == old(res.output) + (if ok then Frame(event, json) else [])
  {
    var head, tail := "event: " + event + "\n", "data: " + json + "\n\n";
    assert Frame(event, json) == head + tail;
    ok := res.Write(head);
    if !ok {
      return;
    }
    ok := res.Write(tail);
  }

  // ---------------------------------------------------------------------
  // The registry

  /** The registry after `res` subscribes under `key`. */
  function Subscribed(m: map<string, set<Response>>, key: string, res: Response): (r: map<string, set<Response>>)
    ensures key in r && res in r[key]
    ensures forall k :: k != key ==> (k in r <==> k in m)
  {
    m[key := (if key in m then m[key] else {}) + {res}]
  }

  /** The registry after the close handler of `res` ran under `key`: `res`
      leaves the set, and the entry goes once its set is empty. */
  function Unsubscribed(m: map<string, set<Response>>, key: string, res: Response): (r: map<string, set<Response>>)
    ensures key in r ==> res !in r[key]
    ensures forall k :: k != key ==> (k in r <==> k in m)
  {
    if key !in m then m
    else if m[key] - {res} == {} then m - {key}
    else m[key := m[key] - {res}]
  }

  /** No group is kept with an empty set. */
  predicate NoEmptySets(m: map<string, set<Response>>)
  {
    forall k :: k in m ==> m[k] != {}
  }

  /** Subscribing and closing keep every entry non-empty, change only the
      entry of their own key, and a close undoes its subscribe. */
  lemma {:induction false} RegistryLaws(m: map<string, set<Response>>, key: string, res: Response)
    requires NoEmptySets(m)
    ensures NoEmptySets(Subscribed(m, key, res))
    ensures NoEmptySets(Unsubscribed(m, key, res))
    ensures forall k :: k != key && k in m ==>
      Subscribed(m, key, res)[k] == m[k] && Unsubscribed(m, key, res)[k] == m[k]
    ensures key !in m || res !in m[key] ==> Unsubscribed(Subscribed(m, key, res), key, res) == m
  {
    var s := Subscribed(m, key, res);
    if key !in m || res !in m[key] {
      if key in m {
        assert s[key] - {res} == m[key];
        assert s[key := m[key]] == m;
      } else {
        assert s[key] - {res} == {};
        assert s - {key} == m;
      }
    }
  }

  class Hub {
    /** groupStreams: group key to the open responses of that group. */
    var streams: map<string, set<Response>>

    constructor ()
      ensures streams == map[]
    {
      streams := map[];
    }

    /** ensureSet: the set for the group's key, created empty if absent. */
    method EnsureSet(g: GroupRef) returns (s: set<Response>)
      modifies this
      ensures Key(g) in streams && s == streams[Key(g)]
      ensures Key(g) in old(streams) ==> streams == old(streams)
      ensures Key(g) !in old(streams) ==> streams == old(streams)[Key(g) := {}]
    {
      var key := Key(g);
      if key !in streams {
        streams := streams[key := {}];
      }
      s := streams[key];
    }

    /** subscribe: add the response to its group's set. */
    method Subscribe(g: GroupRef, res: Response)
      modifies this
      ensures streams == Subscribed(old(streams), Key(g), res)
    {
      var s := EnsureSet(g);
      streams := streams[Key(g) := s + {res}];
    }

    /** The close handler that subscribe registers on the response. */
    method Unsubscribe(g: GroupRef, res: Response)
      modifies this
      ensures streams == Unsubscribed(old(streams), Key(g), res)
    {
      var key := Key(g);
      if key !in streams {
        return;
      }
      var s := streams[key] - {res};
      streams := streams[key := s];
      if |s| == 0 {
        streams := streams - {key};
      }
    }

    /** The responses `broadcast` writes to. */
    function Audience(g: GroupRef): set<Response>
      reads this
    {
      if Key(g) in streams then streams[Key(g)] else {}
    }

    /** broadcast: a `state` frame to every response of the group, each
      write failure swallowed; a group with no entry gets nothing. */
    method Broadcast(g: GroupRef, json: string)
      modifies Audience(g)
      ensures forall r :: r in old(Audience(g)) ==>
        r.broken == old(r.broken) &&
        r.output == old(r.output) + (if r.broken then [] else Frame("state", json))
    {
      var key := Key(g);
      if key !in streams {
        return;
      }
      var all := streams[key];
      var remaining := all;
      while remaining != {}
        invariant remaining <= all
        invariant forall r :: r in all ==> r.broken == old(r.broken)
        invariant forall r :: r in all && r !in remaining ==>
          r.output == old(r.output) + (if r.broken then [] else Frame("state", json))
        invariant forall r :: r in remaining ==> r.output == old(r.output)
        decreases |remaining|
      {
        var r :| r in remaining;
        var _ := SendSse(r, "state", json);
        remaining := remaining - {r};
      }
    }
  }
}
