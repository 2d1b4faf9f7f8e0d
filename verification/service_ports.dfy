/**
 * Service-port descriptors: a string such as `jupyter:http:8080,ssh:tcp:[2200,2201]`
 * read one entry at a time. Each entry is `name:protocol:ports`, where ports is one
 * decimal number or a bracketed comma-separated list of them, and the entry ends with a
 * comma or at the end of the string. Reading stops silently at the first remainder that
 * is not an entry; a bad protocol or port rejects the whole descriptor.
 */
module ServicePorts {
  import opened Wrappers
  import opened Text

  datatype Protocol = Tcp | Http

  /** One exposed service: host ports are not yet assigned, one slot per container port. */
  datatype ServicePort = ServicePort(
    name: string,
    protocol: Protocol,
    containerPorts: seq<nat>,
    hostPorts: seq<Option<nat>>)

  /** The ValueError cases of the parser, with the offending value. */
  datatype PortError =
    | UnsupportedProtocol(protocol: string)
    | PortInUse(port: nat)
    | PortTooLow(port: nat)
    | PortReserved(port: nat)

  /** The text of one entry's groups: `name`, `proto` and the digit strings of `ports`. */
  datatype Entry = Entry(name: string, proto: string, portTexts: seq<string>, bracketed: bool)

  datatype Match = Match(entry: Entry, rest: string)

  // ---------------------------------------------------------------------------
  // The entry pattern, written out as a tokenizer

  predicate AllWordChars(w: string) {
    forall i :: 0 <= i < |w| ==> IsWordChar(w[i])
  }

  predicate IsWordText(w: string) {
    |w| > 0 && AllWordChars(w)
  }

  predicate IsDigitText(w: string) {
    |w| > 0 && AllDigits(w)
  }

  predicate WellFormed(e: Entry) {
    && IsWordText(e.name)
    && IsWordText(e.proto)
    && |e.portTexts| > 0
    && (forall i :: 0 <= i < |e.portTexts| ==> IsDigitText(e.portTexts[i]))
    && (!e.bracketed ==> |e.portTexts| == 1)
  }

  function PortsText(items: seq<string>, bracketed: bool): string
    requires |items| > 0
  {
    if bracketed then "[" + Join(items, ',') + "]" else items[0]
  }

  /** The text an entry is read from, without its terminating comma. */
  function Render(e: Entry): string
    requires |e.portTexts| > 0
  {
    e.name + ":" + e.proto + ":" + PortsText(e.portTexts, e.bracketed)
  }

  /** What may follow an entry: a comma (consumed), or the end of the string, where a
      single final newline also counts as the end. */
  predicate Terminated(s: string, e: Entry, rest: string)
    requires |e.portTexts| > 0
  {
    || s == Render(e) + "," + rest
    || (s == Render(e) + rest && (rest == "" || rest == "\n"))
  }

  function WordSpan(s: string): (n: nat)
    ensures n <= |s|
    ensures AllWordChars(s[..n])
    ensures n < |s| ==> !IsWordChar(s[n])
  {
    if s == [] || !IsWordChar(s[0]) then 0
    else
      var k := WordSpan(s[1..]);
      assert s[..k + 1] == [s[0]] + s[1..][..k];
      1 + k
  }

  function DigitSpan(s: string): (n: nat)
    ensures n <= |s|
    ensures AllDigits(s[..n])
    ensures n < |s| ==> !IsDigit(s[n])
  {
    if s == [] || !IsDigit(s[0]) then 0
    else
      var k := DigitSpan(s[1..]);
      assert s[..k + 1] == [s[0]] + s[1..][..k];
      1 + k
  }

  /** Reads `\d+(?:,\d+)*\]`: the listed numbers and the length read, closing bracket included. */
  function ListItems(t: string): (r: Option<(seq<string>, nat)>)
    ensures r.Some? ==> |r.value.0| > 0 && r.value.1 <= |t|
  {
    var n := DigitSpan(t);
    if n == 0 || n == |t| then None
    else if t[n] == ']' then Some(([t[..n]], n + 1))
    else if t[n] == ',' then
      var r := ListItems(t[n + 1..]);
      if r.None? then None else Some(([t[..n]] + r.value.0, n + 1 + r.value.1))
    else None
  }

  /** Every item ListItems reads is a nonempty run of digits. */
  lemma {:induction false} ListItemsDigits(t: string)
    requires ListItems(t).Some?
    ensures forall i :: 0 <= i < |ListItems(t).value.0| ==> IsDigitText(ListItems(t).value.0[i])
  {
    var n := DigitSpan(t);
    assert IsDigitText(t[..n]);
    if t[n] == ',' {
      ListItemsDigits(t[n + 1..]);
    }
  }

  /** The text ListItems reads is the numbers joined by commas, then the closing bracket. */
  lemma {:induction false} ListItemsShape(t: string)
    requires ListItems(t).Some?
    ensures t[..ListItems(t).value.1] == Join(ListItems(t).value.0, ',') + "]"
  {
    var n := DigitSpan(t);
    assert 0 < n < |t| && (t[n] == ',' || t[n] == ']');
    if t[n] == ',' {
      var (items, k) := ListItems(t[n + 1..]).value;
      ListItemsShape(t[n + 1..]);
      ListItemsShapeComma(t, n, items, k);
    } else {
      assert ListItems(t) == Some(([t[..n]], n + 1));
      assert t[..n + 1] == t[..n] + "]";
    }
  }

  lemma {:induction false} ListItemsShapeComma(t: string, n: nat, items: seq<string>, k: nat)
    requires DigitSpan(t) == n && 0 < n < |t| && t[n] == ','
    requires ListItems(t[n + 1..]) == Some((items, k))
    requires t[n + 1..][..k] == Join(items, ',') + "]"
    ensures ListItems(t) == Some(([t[..n]] + items, n + 1 + k))
    ensures t[..n + 1 + k] == Join([t[..n]] + items, ',') + "]"
  {
    ListItemsAtComma(t, n);
    var j := Join(items, ',');
    assert Join([t[..n]] + items, ',') == t[..n] + [','] + j by {
      assert ([t[..n]] + items)[1..] == items;
    }
    assert t[..n + 1 + k] == t[..n] + [','] + (j + "]") by {
      SliceAround(t, n, k);
    }
    assert t[..n] + [','] + (j + "]") == t[..n] + [','] + j + "]";
  }

  lemma {:induction false} SliceAround(t: string, n: nat, k: nat)
    requires n + 1 + k <= |t|
    ensures t[..n + 1 + k] == t[..n] + [t[n]] + t[n + 1..][..k]
  {
  }

  /** Reads the ports group: a bracketed list, or else a bare number. */
  function PortsGroup(t: string): (r: Option<(seq<string>, bool, nat)>)
    ensures r.Some? ==>
      var (items, bracketed, m) := r.value;
      && 0 < m <= |t|
      && |items| > 0
      && (forall i :: 0 <= i < |items| ==> IsDigitText(items[i]))
      && (!bracketed ==> |items| == 1)
  {
    if t != [] && t[0] == '[' then
      match ListItems(t[1..])
      case None => None
      case Some((items, m)) =>
        ListItemsDigits(t[1..]);
        Some((items, true, m + 1))
    else
      var n := DigitSpan(t);
      if n == 0 then None else Some(([t[..n]], false, n))
  }

  /** The text the ports group is read from is the rendered group. */
  lemma {:induction false} PortsGroupText(t: string)
    requires PortsGroup(t).Some?
    ensures t[..PortsGroup(t).value.2] == PortsText(PortsGroup(t).value.0, PortsGroup(t).value.1)
  {
    if t != [] && t[0] == '[' {
      var (items, m) := ListItems(t[1..]).value;
      ListItemsShape(t[1..]);
      assert t[..m + 1] == "[" + t[1..][..m];
    }
  }

  /** Reads `\w+:` : a nonempty word and the text after its colon. */
  function Field(s: string): (r: Option<(string, string)>)
    ensures r.Some? ==> IsWordText(r.value.0) && |r.value.1| < |s|
  {
    var a := WordSpan(s);
    if a == 0 || a == |s| || s[a] != ':' then None
    else Some((s[..a], s[a + 1..]))
  }

  lemma {:induction false} FieldText(s: string)
    requires Field(s).Some?
    ensures s == Field(s).value.0 + ":" + Field(s).value.1
  {
    var a := WordSpan(s);
    assert s == s[..a] + ":" + s[a + 1..];
  }

  /** Reads `(?:,|$)`: a comma is consumed; the end matches at "" and before a final "\n". */
  function Terminator(t: string): (r: Option<string>)
    ensures r.Some? ==> |r.value| <= |t|
  {
    if t != [] && t[0] == ',' then Some(t[1..])
    else if t == [] || t == "\n" then Some(t)
    else None
  }

  lemma {:induction false} TerminatorText(t: string)
    requires Terminator(t).Some?
    ensures t == "," + Terminator(t).value || (t == Terminator(t).value && (t == "" || t == "\n"))
  {
    if t != [] && t[0] == ',' {
      assert t == "," + t[1..];
    }
  }

  /** Puts an entry's pieces back together: the text read is the rendered entry plus its terminator. */
  lemma {:induction false} Assemble(s: string, s1: string, s2: string, e: Entry, m: nat, rest: string)
    requires |e.portTexts| > 0
    requires s == e.name + ":" + s1 && s1 == e.proto + ":" + s2
    requires m <= |s2| && s2[..m] == PortsText(e.portTexts, e.bracketed)
    requires s2[m..] == "," + rest || (s2[m..] == rest && (rest == "" || rest == "\n"))
    ensures Terminated(s, e, rest)
  {
    var pt := PortsText(e.portTexts, e.bracketed);
    assert s2 == pt + s2[m..];
    assert s == (e.name + ":" + e.proto + ":" + pt) + s2[m..];
  }

  /**
   * One match of `^(\w+):(\w+):(\[\d+(?:,\d+)*\]|\d+)(?:,|$)` at the start of s, with the
   * remainder after it. Every character class in the pattern is followed by a character
   * outside the class, so reading each class greedily finds the same match the regular
   * expression does.
   */
  function MatchEntry(s: string): (r: Option<Match>)
    ensures r.Some? ==> WellFormed(r.value.entry) && |r.value.rest| < |s|
  {
    match Field(s)
    case None => None
    case Some((name, s1)) =>
      match Field(s1)
      case None => None
      case Some((proto, s2)) =>
        match PortsGroup(s2)
        case None => None
        case Some((items, bracketed, m)) =>
          match Terminator(s2[m..])
          case None => None
          case Some(rest) => Some(Match(Entry(name, proto, items, bracketed), rest))
  }

  /** What a match consumed: the entry as written, then its terminator. */
  lemma {:induction false} MatchEntryText(s: string)
    requires MatchEntry(s).Some?
    ensures Terminated(s, MatchEntry(s).value.entry, MatchEntry(s).value.rest)
  {
    var (name, s1) := Field(s).value;
    var (proto, s2) := Field(s1).value;
    var (items, bracketed, m) := PortsGroup(s2).value;
    var rest := Terminator(s2[m..]).value;
    FieldText(s);
    FieldText(s1);
    PortsGroupText(s2);
    TerminatorText(s2[m..]);
    Assemble(s, s1, s2, Entry(name, proto, items, bracketed), m, rest);
  }

  // ---------------------------------------------------------------------------
  // The parser as a specification function

  function PortValues(texts: seq<string>): (ports: seq<nat>)
    requires forall i :: 0 <= i < |texts| ==> AllDigits(texts[i])
    ensures |ports| == |texts|
    ensures forall i :: 0 <= i < |texts| ==> ports[i] == DigitsValue(texts[i])
  {
    if texts == [] then [] else [DigitsValue(texts[0])] + PortValues(texts[1..])
  }

  function ProtocolOf(proto: string): Protocol
  {
    if proto == "tcp" then Tcp else Http
  }

  /** The record emitted for an accepted entry. */
  function ToServicePort(e: Entry): (sp: ServicePort)
    requires WellFormed(e)
    ensures sp.name == e.name && sp.containerPorts == PortValues(e.portTexts)
    ensures |sp.hostPorts| == |sp.containerPorts|
    ensures forall i :: 0 <= i < |sp.hostPorts| ==> sp.hostPorts[i] == None
  {
    var ports := PortValues(e.portTexts);
    ServicePort(e.name, ProtocolOf(e.proto), ports, seq(|ports|, _ => None))
  }

  /** Host ports are chosen later, when the container starts: one unset slot per container port. */
  predicate HostPortsUnbound(sp: ServicePort) {
    |sp.hostPorts| == |sp.containerPorts| && forall i :: 0 <= i < |sp.hostPorts| ==> sp.hostPorts[i] == None
  }

  /** Every container port of an accepted record is above 1024 and outside the reserved range. */
  predicate PortsAllowed(sp: ServicePort) {
    forall i :: 0 <= i < |sp.containerPorts| ==> sp.containerPorts[i] > 1024 && !IsReserved(sp.containerPorts[i])
  }

  /** Every record has its host ports unset and only allowed container ports. */
  predicate AllRecordsOk(sps: seq<ServicePort>) {
    forall i :: 0 <= i < |sps| ==> HostPortsUnbound(sps[i]) && PortsAllowed(sps[i])
  }

  lemma {:induction false} AllRecordsOkCons(sp: ServicePort, sps: seq<ServicePort>)
    requires HostPortsUnbound(sp) && PortsAllowed(sp) && AllRecordsOk(sps)
    ensures AllRecordsOk([sp] + sps)
  {
    forall i | 0 <= i < |[sp] + sps| ensures HostPortsUnbound(([sp] + sps)[i]) && PortsAllowed(([sp] + sps)[i]) {
      if i > 0 { assert ([sp] + sps)[i] == sps[i - 1]; }
    }
  }

  predicate IsReserved(p: nat) { 2000 <= p <= 2003 }

  /** The checks on one entry's ports, in order, adding each accepted port to `used`. */
  function CheckPorts(ports: seq<nat>, used: set<nat>): (r: Result<set<nat>, PortError>)
    ensures r.Ok? ==> used <= r.value
    ensures r.Ok? ==> forall i :: 0 <= i < |ports| ==>
      ports[i] in r.value && ports[i] !in used && ports[i] > 1024 && !IsReserved(ports[i])
    ensures r.Err? ==> ports != []
  {
    if ports == [] then Ok(used)
    else
      var p := ports[0];
      if p in used then Err(PortInUse(p))
      else if p <= 1024 then Err(PortTooLow(p))
      else if IsReserved(p) then Err(PortReserved(p))
      else CheckPorts(ports[1..], used + {p})
  }

  function Prepend(items: seq<ServicePort>, r: Result<seq<ServicePort>, PortError>): (p: Result<seq<ServicePort>, PortError>)
    ensures p.Ok? == r.Ok? && (r.Ok? ==> p.value == items + r.value)
  {
    match r
    case Ok(tail) => Ok(items + tail)
    case Err(e) => Err(e)
  }

  lemma {:induction false} PrependNothing(r: Result<seq<ServicePort>, PortError>)
    ensures Prepend([], r) == r
  {
    if r.Ok? {
      assert [] + r.value == r.value;
    }
  }

  lemma {:induction false} PrependPrepend(items: seq<ServicePort>, sp: ServicePort, r: Result<seq<ServicePort>, PortError>)
    ensures Prepend(items, Prepend([sp], r)) == Prepend(items + [sp], r)
  {
    if r.Ok? {
      assert items + ([sp] + r.value) == items + [sp] + r.value;
    }
  }

  /** The parse of the remainder s when the ports in `used` are already taken. */
  function ParseFrom(s: string, used: set<nat>): (r: Result<seq<ServicePort>, PortError>)
    ensures r.Ok? ==> AllRecordsOk(r.value)
    decreases |s|
  {
    match MatchEntry(s)
    case None => Ok([])
    case Some(Match(e, rest)) =>
      if e.proto == "pty" then ParseFrom(rest, used)
      else if e.proto != "tcp" && e.proto != "http" then Err(UnsupportedProtocol(e.proto))
      else
        match CheckPorts(PortValues(e.portTexts), used)
        case Err(err) => Err(err)
        case Ok(used') =>
          var sp := ToServicePort(e);
          var tail := ParseFrom(rest, used');
          if tail.Ok? then
            AllRecordsOkCons(sp, tail.value);
            Prepend([sp], tail)
          else
            Prepend([sp], tail)
  }

  function Parse(s: string): (r: Result<seq<ServicePort>, PortError>)
    ensures r.Ok? ==> AllRecordsOk(r.value)
  {
    ParseFrom(s, {})
  }

  // ---------------------------------------------------------------------------
  // The parser as the source runs it

  /** parse_service_ports: the loop that consumes one entry per iteration. */
  method ParseServicePorts(s0: string) returns (r: Result<seq<ServicePort>, PortError>)
    ensures r == Parse(s0)
  {
    var s := s0;
    var items: seq<ServicePort> := [];
    var used: set<nat> := {};
    PrependNothing(Parse(s0));
    while true
      invariant Parse(s0) == Prepend(items, ParseFrom(s, used))
      decreases |s|
    {
      var m := MatchEntry(s);
      if m.None? {
        assert ParseFrom(s, used) == Ok([]);
        PrependEmpty(items);
        return Ok(items);
      }
      var e, rest := m.value.entry, m.value.rest;
      assert m == Some(Match(e, rest));
      if e.proto == "pty" {
        assert ParseFrom(s, used) == ParseFrom(rest, used);
        s := rest;
        continue;
      }
      if e.proto != "tcp" && e.proto != "http" {
        assert ParseFrom(s, used) == Err(UnsupportedProtocol(e.proto));
        return Err(UnsupportedProtocol(e.proto));
      }
      var claimed := ClaimPorts(PortValues(e.portTexts), used);
      if claimed.Err? {
        assert ParseFrom(s, used) == Err(claimed.error);
        return Err(claimed.error);
      }
      assert ParseFrom(s, used) == Prepend([ToServicePort(e)], ParseFrom(rest, claimed.value));
      PrependPrepend(items, ToServicePort(e), ParseFrom(rest, claimed.value));
      used := claimed.value;
      items := items + [ToServicePort(e)];
      s := rest;
      if s == [] {
        assert ParseFrom(s, used) == Ok([]) by {
          NoEntryInEmpty();
        }
        PrependEmpty(items);
        return Ok(items);
      }
    }
  }

  lemma {:induction false} PrependEmpty(items: seq<ServicePort>)
    ensures Prepend(items, Ok([])) == Ok(items)
  {
    assert items + [] == items;
  }

  lemma {:induction false} NoEntryInEmpty()
    ensures MatchEntry("") == None
  {
    assert WordSpan("") == 0;
  }

  /** The `for p in ports` loop of parse_service_ports: checks each port and records it as used. */
  method ClaimPorts(ports: seq<nat>, used0: set<nat>) returns (r: Result<set<nat>, PortError>)
    ensures r == CheckPorts(ports, used0)
  {
    var used := used0;
    var i := 0;
    while i < |ports|
      invariant 0 <= i <= |ports|
      invariant CheckPorts(ports, used0) == CheckPorts(ports[i..], used)
    {
      var p := ports[i];
      assert ports[i..][1..] == ports[i + 1..];
      if p in used {
        return Err(PortInUse(p));
      }
      if p <= 1024 {
        return Err(PortTooLow(p));
      }
      if p in {2000, 2001, 2002, 2003} {
        return Err(PortReserved(p));
      }
      used := used + {p};
      i := i + 1;
    }
    return Ok(used);
  }

  // ---------------------------------------------------------------------------
  // The entries the tokenizer sees, and what the parser makes of them

  /** The entries read before the first remainder that does not match, in order. */
  function Tokens(s: string): (es: seq<Entry>)
    ensures AllWellFormed(es)
    decreases |s|
  {
    match MatchEntry(s)
    case None => []
    case Some(Match(e, rest)) => [e] + Tokens(rest)
  }

  predicate AllWellFormed(es: seq<Entry>) {
    forall i :: 0 <= i < |es| ==> WellFormed(es[i])
  }

  /** Every protocol is one the parser knows (`pty` is known and skipped). */
  predicate ProtocolsKnown(es: seq<Entry>) {
    forall i :: 0 <= i < |es| ==> es[i].proto in {"tcp", "http", "pty"}
  }

  /** The records for the entries that are not `pty`, in input order. */
  function Accepted(es: seq<Entry>): seq<ServicePort>
    requires AllWellFormed(es)
  {
    if es == [] then []
    else if es[0].proto == "pty" then Accepted(es[1..])
    else [ToServicePort(es[0])] + Accepted(es[1..])
  }

  /** The port numbers of the entries that are not `pty`, in input order. */
  function PortsOf(es: seq<Entry>): seq<nat>
    requires AllWellFormed(es)
  {
    if es == [] then []
    else if es[0].proto == "pty" then PortsOf(es[1..])
    else PortValues(es[0].portTexts) + PortsOf(es[1..])
  }

  /** Each port is above 1024, outside 2000-2003, not in `used`, and no port repeats. */
  predicate PortsFresh(ports: seq<nat>, used: set<nat>) {
    && (forall i :: 0 <= i < |ports| ==> ports[i] > 1024 && !IsReserved(ports[i]) && ports[i] !in used)
    && Distinct(ports)
  }

  function Elements(ports: seq<nat>): set<nat> {
    set p | p in ports
  }

  /** Freshness of a nonempty list: its head is fresh, and the tail is fresh once the head is used. */
  lemma {:induction false} PortsFreshCons(ports: seq<nat>, used: set<nat>)
    requires ports != []
    ensures PortsFresh(ports, used) <==>
      && ports[0] !in used && ports[0] > 1024 && !IsReserved(ports[0])
      && PortsFresh(ports[1..], used + {ports[0]})
  {
    var p, tail := ports[0], ports[1..];
    if PortsFresh(ports, used) {
      assert PortsFresh(tail, used + {p}) by {
        forall i | 0 <= i < |tail| ensures tail[i] != p {
          assert ports[0] != ports[i + 1];
        }
      }
    }
    if p !in used && p > 1024 && !IsReserved(p) && PortsFresh(tail, used + {p}) {
      assert PortsFresh(ports, used) by {
        forall i, j | 0 <= i < j < |ports| ensures ports[i] != ports[j] {
          if i > 0 { assert tail[i - 1] != tail[j - 1]; }
          else { assert tail[j - 1] !in used + {p}; }
        }
      }
    }
  }

  /** The port checks succeed exactly when the ports are fresh, and then mark all of them used. */
  lemma {:induction false} CheckPortsFresh(ports: seq<nat>, used: set<nat>)
    ensures CheckPorts(ports, used).Ok? <==> PortsFresh(ports, used)
    ensures CheckPorts(ports, used).Ok? ==> CheckPorts(ports, used).value == used + Elements(ports)
  {
    if ports != [] {
      var p := ports[0];
      var tail := ports[1..];
      CheckPortsFresh(tail, used + {p});
      PortsFreshCons(ports, used);
      assert Elements(ports) == {p} + Elements(tail) by {
        assert ports == [p] + tail;
      }
    }
  }

  lemma {:induction false} PortsFreshAppend(p1: seq<nat>, p2: seq<nat>, used: set<nat>)
    ensures PortsFresh(p1 + p2, used) <==> PortsFresh(p1, used) && PortsFresh(p2, used + Elements(p1))
  {
    var q := p1 + p2;
    if PortsFresh(q, used) {
      assert PortsFresh(p1, used) by {
        forall i, j | 0 <= i < j < |p1| ensures p1[i] != p1[j] { assert q[i] != q[j]; }
        forall i | 0 <= i < |p1| ensures p1[i] > 1024 && !IsReserved(p1[i]) && p1[i] !in used {
          assert q[i] == p1[i];
        }
      }
      assert PortsFresh(p2, used + Elements(p1)) by {
        forall i | 0 <= i < |p2| ensures p2[i] !in Elements(p1) {
          forall k | 0 <= k < |p1| ensures p1[k] != p2[i] {
            assert q[k] == p1[k] && q[|p1| + i] == p2[i];
          }
        }
        forall i | 0 <= i < |p2| ensures p2[i] > 1024 && !IsReserved(p2[i]) && p2[i] !in used {
          assert q[|p1| + i] == p2[i];
        }
        forall i, j | 0 <= i < j < |p2| ensures p2[i] != p2[j] { assert q[|p1| + i] != q[|p1| + j]; }
      }
    }
    if PortsFresh(p1, used) && PortsFresh(p2, used + Elements(p1)) {
      forall i, j | 0 <= i < j < |q| ensures q[i] != q[j] {
        if j < |p1| {
          assert p1[i] != p1[j];
        } else if i >= |p1| {
          assert p2[i - |p1|] != p2[j - |p1|];
        } else {
          assert q[i] in Elements(p1);
          assert q[j] == p2[j - |p1|];
        }
      }
      forall i | 0 <= i < |q| ensures q[i] > 1024 && !IsReserved(q[i]) && q[i] !in used {
        if i < |p1| { assert q[i] == p1[i]; } else { assert q[i] == p2[i - |p1|]; }
      }
    }
  }

  /** How the entry-list summaries read a list with one more entry at the front. */
  lemma {:induction false} ConsEntry(e: Entry, es: seq<Entry>)
    requires WellFormed(e) && AllWellFormed(es)
    ensures AllWellFormed([e] + es)
    ensures ProtocolsKnown([e] + es) <==> e.proto in {"tcp", "http", "pty"} && ProtocolsKnown(es)
    ensures Accepted([e] + es) == if e.proto == "pty" then Accepted(es) else [ToServicePort(e)] + Accepted(es)
    ensures PortsOf([e] + es) == if e.proto == "pty" then PortsOf(es) else PortValues(e.portTexts) + PortsOf(es)
  {
    var l := [e] + es;
    assert l[0] == e && l[1..] == es;
    if ProtocolsKnown(es) && e.proto in {"tcp", "http", "pty"} {
      forall i | 0 <= i < |l| ensures l[i].proto in {"tcp", "http", "pty"} {
        if i > 0 { assert l[i] == es[i - 1]; }
      }
    }
    if ProtocolsKnown(l) {
      forall i | 0 <= i < |es| ensures es[i].proto in {"tcp", "http", "pty"} {
        assert es[i] == l[i + 1];
      }
    }
  }

  /**
   * The whole behaviour of the parser: it succeeds exactly when every entry read has a
   * known protocol and the ports of the non-`pty` entries are fresh, and it then returns
   * one record per non-`pty` entry, in order.
   */
  lemma {:induction false} ParseFromCharacterized(s: string, used: set<nat>)
    ensures ParseFrom(s, used).Ok? <==> ProtocolsKnown(Tokens(s)) && PortsFresh(PortsOf(Tokens(s)), used)
    ensures ParseFrom(s, used).Ok? ==> ParseFrom(s, used).value == Accepted(Tokens(s))
    decreases |s|
  {
    match MatchEntry(s)
    case None =>
    case Some(Match(e, rest)) =>
      var tail := Tokens(rest);
      assert Tokens(s) == [e] + tail;
      if e.proto == "pty" {
        assert ParseFrom(s, used) == ParseFrom(rest, used);
        ParseFromCharacterized(rest, used);
        ConsEntry(e, tail);
      } else if e.proto == "tcp" || e.proto == "http" {
        var checked := CheckPorts(PortValues(e.portTexts), used);
        if checked.Ok? {
          assert ParseFrom(s, used) == Prepend([ToServicePort(e)], ParseFrom(rest, checked.value));
          ParseFromCharacterized(rest, checked.value);
          PortsEntryCase(e, tail, used, ParseFrom(s, used), ParseFrom(rest, checked.value));
        } else {
          assert ParseFrom(s, used) == Err(checked.error);
          PortsEntryCase(e, tail, used, ParseFrom(s, used), Ok([]));
        }
      } else {
        assert ParseFrom(s, used) == Err(UnsupportedProtocol(e.proto));
        ConsEntry(e, tail);
      }
  }

  /** The step of ParseFromCharacterized for a tcp or http entry, given the result for the rest. */
  lemma {:induction false} PortsEntryCase(e: Entry, tail: seq<Entry>, used: set<nat>,
                       r: Result<seq<ServicePort>, PortError>, r': Result<seq<ServicePort>, PortError>)
    requires WellFormed(e) && AllWellFormed(tail) && (e.proto == "tcp" || e.proto == "http")
    requires CheckPorts(PortValues(e.portTexts), used).Err? ==> r == Err(CheckPorts(PortValues(e.portTexts), used).error)
    requires CheckPorts(PortValues(e.portTexts), used).Ok? ==>
      var used' := CheckPorts(PortValues(e.portTexts), used).value;
      && r == Prepend([ToServicePort(e)], r')
      && (r'.Ok? <==> ProtocolsKnown(tail) && PortsFresh(PortsOf(tail), used'))
      && (r'.Ok? ==> r'.value == Accepted(tail))
    ensures r.Ok? <==> ProtocolsKnown([e] + tail) && PortsFresh(PortsOf([e] + tail), used)
    ensures r.Ok? ==> r.value == Accepted([e] + tail)
  {
    var ports := PortValues(e.portTexts);
    ConsEntry(e, tail);
    CheckPortsFresh(ports, used);
    PortsFreshAppend(ports, PortsOf(tail), used);
  }

  /** parse_service_ports succeeds iff every entry read is acceptable, and returns the records in order. */
  lemma {:induction false} ParseCharacterized(s: string)
    ensures Parse(s).Ok? <==> ProtocolsKnown(Tokens(s)) && PortsFresh(PortsOf(Tokens(s)), {})
    ensures Parse(s).Ok? ==> Parse(s).value == Accepted(Tokens(s))
  {
    ParseFromCharacterized(s, {});
  }

  /** An entry with a protocol other than tcp, http or pty rejects the descriptor. */
  lemma {:induction false} UnknownProtocolRejected(s: string, i: nat)
    requires i < |Tokens(s)| && Tokens(s)[i].proto !in {"tcp", "http", "pty"}
    ensures Parse(s).Err?
  {
    ParseCharacterized(s);
  }

  /** A port at or below 1024, or in 2000-2003, in a non-`pty` entry rejects the descriptor. */
  lemma {:induction false} BadPortRejected(s: string, k: nat)
    requires k < |PortsOf(Tokens(s))|
    requires PortsOf(Tokens(s))[k] <= 1024 || IsReserved(PortsOf(Tokens(s))[k])
    ensures Parse(s).Err?
  {
    ParseCharacterized(s);
  }

  /** A port number given twice, in one entry or in two, rejects the descriptor. */
  lemma {:induction false} RepeatedPortRejected(s: string, i: nat, j: nat)
    requires i < j < |PortsOf(Tokens(s))| && PortsOf(Tokens(s))[i] == PortsOf(Tokens(s))[j]
    ensures Parse(s).Err?
  {
    ParseCharacterized(s);
  }

  function AllContainerPorts(sps: seq<ServicePort>): seq<nat>
  {
    if sps == [] then [] else sps[0].containerPorts + AllContainerPorts(sps[1..])
  }

  lemma {:induction false} AcceptedPorts(es: seq<Entry>)
    requires AllWellFormed(es)
    ensures AllContainerPorts(Accepted(es)) == PortsOf(es)
    ensures forall i :: 0 <= i < |Accepted(es)| ==>
      |Accepted(es)[i].hostPorts| == |Accepted(es)[i].containerPorts| &&
      forall k :: 0 <= k < |Accepted(es)[i].hostPorts| ==> Accepted(es)[i].hostPorts[k] == None
  {
    if es != [] {
      AcceptedPorts(es[1..]);
      if es[0].proto != "pty" {
        var a := Accepted(es);
        assert a[1..] == Accepted(es[1..]);
      }
    }
  }

  /**
   * What a successful parse promises: every record has one unassigned host port per
   * container port, and the container ports of all records together are above 1024,
   * outside 2000-2003 and pairwise distinct.
   */
  lemma {:induction false} ParsedPortsValid(s: string)
    requires Parse(s).Ok?
    ensures forall i :: 0 <= i < |Parse(s).value| ==>
      var sp := Parse(s).value[i];
      |sp.hostPorts| == |sp.containerPorts| && forall k :: 0 <= k < |sp.hostPorts| ==> sp.hostPorts[k] == None
    ensures PortsFresh(AllContainerPorts(Parse(s).value), {})
  {
    ParseCharacterized(s);
    AcceptedPorts(Tokens(s));
  }

  // ---------------------------------------------------------------------------
  // Reading back what was written

  lemma {:induction false} WordSpanOf(w: string, t: string)
    requires AllWordChars(w)
    requires t == [] || !IsWordChar(t[0])
    ensures WordSpan(w + t) == |w|
  {
    if w != [] {
      assert (w + t)[1..] == w[1..] + t;
      WordSpanOf(w[1..], t);
    }
  }

  lemma {:induction false} DigitSpanOf(d: string, t: string)
    requires AllDigits(d)
    requires t == [] || !IsDigit(t[0])
    ensures DigitSpan(d + t) == |d|
  {
    if d != [] {
      assert (d + t)[1..] == d[1..] + t;
      DigitSpanOf(d[1..], t);
    }
  }

  lemma {:induction false} FieldOf(w: string, x: string)
    requires IsWordText(w)
    ensures Field(w + ":" + x) == Some((w, x))
  {
    var s := w + ":" + x;
    assert s == w + (":" + x);
    WordSpanOf(w, ":" + x);
    assert s[..|w|] == w && s[|w| + 1..] == x;
  }

  lemma {:induction false} ListItemsAtClose(u: string, n: nat)
    requires DigitSpan(u) == n && 0 < n < |u| && u[n] == ']'
    ensures ListItems(u) == Some(([u[..n]], n + 1))
  {
  }

  lemma {:induction false} ListItemsAtComma(u: string, n: nat)
    requires DigitSpan(u) == n && 0 < n < |u| && u[n] == ',' && ListItems(u[n + 1..]).Some?
    ensures ListItems(u) ==
      Some(([u[..n]] + ListItems(u[n + 1..]).value.0, n + 1 + ListItems(u[n + 1..]).value.1))
  {
  }

  lemma {:induction false} ListItemsLast(d: string, t: string)
    requires IsDigitText(d)
    ensures ListItems(d + "]" + t) == Some(([d], |d| + 1))
  {
    var u := d + "]" + t;
    assert DigitSpan(u) == |d| && u[..|d|] == d && u[|d|] == ']' by {
      assert u == d + ("]" + t);
      DigitSpanOf(d, "]" + t);
    }
    ListItemsAtClose(u, |d|);
  }

  lemma {:induction false} ListItemsAtCommaOf(u: string, d: string, rest: string, items: seq<string>, k: nat)
    requires DigitSpan(u) == |d| && 0 < |d| < |u| && u[|d|] == ','
    requires u[..|d|] == d && u[|d| + 1..] == rest && ListItems(rest) == Some((items, k))
    ensures ListItems(u) == Some(([d] + items, |d| + 1 + k))
  {
  }

  lemma {:induction false} ListItemsNext(d: string, rest: string, items: seq<string>, k: nat)
    requires IsDigitText(d) && ListItems(rest) == Some((items, k))
    ensures ListItems(d + "," + rest) == Some(([d] + items, |d| + 1 + k))
  {
    var u := d + "," + rest;
    assert DigitSpan(u) == |d| && u[..|d|] == d && u[|d|] == ',' && u[|d| + 1..] == rest by {
      assert u == d + ("," + rest);
      DigitSpanOf(d, "," + rest);
    }
    ListItemsAtCommaOf(u, d, rest, items, k);
  }

  lemma {:induction false} ListItemsOne(items: seq<string>, t: string)
    requires |items| == 1 && IsDigitText(items[0])
    ensures ListItems(Join(items, ',') + "]" + t) == Some((items, |Join(items, ',')| + 1))
  {
    var d := items[0];
    assert Join(items, ',') + "]" + t == d + "]" + t && |Join(items, ',')| == |d| && items == [d] by {
      assert Join(items, ',') == d;
    }
    ListItemsLast(d, t);
  }

  lemma {:induction false} ListItemsCons(items: seq<string>, t: string)
    requires |items| > 1 && IsDigitText(items[0])
    requires ListItems(Join(items[1..], ',') + "]" + t) == Some((items[1..], |Join(items[1..], ',')| + 1))
    ensures ListItems(Join(items, ',') + "]" + t) == Some((items, |Join(items, ',')| + 1))
  {
    var d, tail := items[0], items[1..];
    var j := Join(tail, ',');
    var rest := j + "]" + t;
    assert Join(items, ',') + "]" + t == d + "," + rest && |Join(items, ',')| == |d| + 1 + |j| by {
      assert Join(items, ',') == d + [','] + j;
    }
    ListItemsNext(d, rest, tail, |j| + 1);
    assert [d] + tail == items;
  }

  lemma {:induction false} ListItemsOf(items: seq<string>, t: string)
    requires |items| > 0 && forall i :: 0 <= i < |items| ==> IsDigitText(items[i])
    ensures ListItems(Join(items, ',') + "]" + t) == Some((items, |Join(items, ',')| + 1))
  {
    if |items| == 1 {
      ListItemsOne(items, t);
    } else {
      ListItemsOf(items[1..], t);
      ListItemsCons(items, t);
    }
  }

  lemma {:induction false} PortsGroupAtBracket(u: string)
    requires u != [] && u[0] == '[' && ListItems(u[1..]).Some?
    ensures PortsGroup(u) == Some((ListItems(u[1..]).value.0, true, ListItems(u[1..]).value.1 + 1))
  {
  }

  lemma {:induction false} PortsGroupAtNumber(u: string)
    requires (u == [] || u[0] != '[') && DigitSpan(u) > 0
    ensures PortsGroup(u) == Some(([u[..DigitSpan(u)]], false, DigitSpan(u)))
  {
  }

  lemma {:induction false} PortsGroupOfList(items: seq<string>, t: string)
    requires |items| > 0 && forall i :: 0 <= i < |items| ==> IsDigitText(items[i])
    ensures PortsGroup(PortsText(items, true) + t) == Some((items, true, |PortsText(items, true)|))
  {
    var j := Join(items, ',');
    var u := PortsText(items, true) + t;
    assert u == "[" + (j + "]" + t) && |PortsText(items, true)| == |j| + 2;
    assert u[1..] == j + "]" + t;
    ListItemsOf(items, t);
    PortsGroupAtBracket(u);
  }

  lemma {:induction false} PortsGroupOfNumber(d: string, t: string)
    requires IsDigitText(d)
    requires t == [] || !IsDigit(t[0])
    ensures PortsGroup(d + t) == Some(([d], false, |d|))
  {
    var u := d + t;
    assert u[0] == d[0];
    DigitSpanOf(d, t);
    assert u[..|d|] == d;
    PortsGroupAtNumber(u);
  }

  lemma {:induction false} PortsGroupOf(items: seq<string>, bracketed: bool, t: string)
    requires |items| > 0 && forall i :: 0 <= i < |items| ==> IsDigitText(items[i])
    requires !bracketed ==> |items| == 1
    requires t == [] || !IsDigit(t[0])
    ensures PortsGroup(PortsText(items, bracketed) + t) == Some((items, bracketed, |PortsText(items, bracketed)|))
  {
    if bracketed {
      PortsGroupOfList(items, t);
    } else {
      assert items == [items[0]] && PortsText(items, bracketed) == items[0];
      PortsGroupOfNumber(items[0], t);
    }
  }

  lemma {:induction false} MatchEntryAt(s: string, s1: string, s2: string, e: Entry, m: nat, rest: string)
    requires Field(s) == Some((e.name, s1)) && Field(s1) == Some((e.proto, s2))
    requires PortsGroup(s2) == Some((e.portTexts, e.bracketed, m))
    requires Terminator(s2[m..]) == Some(rest)
    ensures MatchEntry(s) == Some(Match(e, rest))
  {
  }

  lemma {:induction false} RenderedFields(e: Entry, t: string)
    requires WellFormed(e)
    ensures var s2 := PortsText(e.portTexts, e.bracketed) + t;
      && Field(Render(e) + t) == Some((e.name, e.proto + ":" + s2))
      && Field(e.proto + ":" + s2) == Some((e.proto, s2))
  {
    var s2 := PortsText(e.portTexts, e.bracketed) + t;
    var s1 := e.proto + ":" + s2;
    assert Render(e) + t == e.name + ":" + s1;
    FieldOf(e.name, s1);
    FieldOf(e.proto, s2);
  }

  lemma {:induction false} TerminatorAfter(pt: string, t: string, rest: string)
    requires t == "," + rest || (t == rest && (rest == "" || rest == "\n"))
    ensures Terminator((pt + t)[|pt|..]) == Some(rest)
  {
    assert (pt + t)[|pt|..] == t;
  }

  /** The tokenizer reads a rendered entry back, whichever terminator follows it. */
  lemma {:induction false} MatchRendered(e: Entry, t: string, rest: string)
    requires WellFormed(e)
    requires t == "," + rest || (t == rest && (rest == "" || rest == "\n"))
    ensures MatchEntry(Render(e) + t) == Some(Match(e, rest))
  {
    var pt := PortsText(e.portTexts, e.bracketed);
    RenderedFields(e, t);
    PortsGroupOf(e.portTexts, e.bracketed, t);
    TerminatorAfter(pt, t, rest);
    MatchEntryAt(Render(e) + t, e.proto + ":" + (pt + t), pt + t, e, |pt|, rest);
  }

  lemma {:induction false} TokensStep(s: string, e: Entry, rest: string)
    requires MatchEntry(s) == Some(Match(e, rest))
    ensures Tokens(s) == [e] + Tokens(rest)
  {
  }

  /** The tokenizer reads a rendered entry, then carries on after its terminator. */
  lemma {:induction false} TokensRendered(e: Entry, t: string, rest: string)
    requires WellFormed(e)
    requires t == "," + rest || (t == rest && (rest == "" || rest == "\n"))
    ensures Tokens(Render(e) + t) == [e] + Tokens(rest)
  {
    MatchRendered(e, t, rest);
    TokensStep(Render(e) + t, e, rest);
  }

  /** A descriptor written from entries: their renderings joined by commas. */
  function Descriptor(es: seq<Entry>): string
    requires AllWellFormed(es)
  {
    if |es| == 0 then ""
    else if |es| == 1 then Render(es[0])
    else Render(es[0]) + "," + Descriptor(es[1..])
  }

  lemma {:induction false} DescriptorCons(es: seq<Entry>)
    requires AllWellFormed(es) && |es| > 1
    ensures Descriptor(es) == Render(es[0]) + "," + Descriptor(es[1..])
  {
  }

  /** Regrouping comma-separated text; stated over plain strings, so nothing is unfolded. */
  lemma {:induction false} CommaRegroup(x: string, a: string, b: string, c: string)
    requires x == a + "," + b
    ensures x == a + ("," + b)
    ensures x + "," + c == a + ("," + (b + "," + c))
  {
  }

  /** Round trip: the tokenizer reads a written descriptor back entry for entry. */
  lemma {:induction false} TokensOfDescriptor(es: seq<Entry>)
    requires AllWellFormed(es)
    ensures Tokens(Descriptor(es)) == es
  {
    if |es| == 0 {
      assert Tokens("") == [];
    } else if |es| == 1 {
      assert Descriptor(es) == Render(es[0]) + "";
      TokensRendered(es[0], "", "");
      assert Tokens("") == [];
    } else {
      TokensOfDescriptor(es[1..]);
      TokensOfDescriptorCons(es);
    }
  }

  lemma {:induction false} TokensOfDescriptorCons(es: seq<Entry>)
    requires AllWellFormed(es) && |es| > 1
    requires Tokens(Descriptor(es[1..])) == es[1..]
    ensures Tokens(Descriptor(es)) == es
  {
    var tail := Descriptor(es[1..]);
    DescriptorCons(es);
    CommaRegroup(Descriptor(es), Render(es[0]), tail, "");
    TokensRendered(es[0], "," + tail, tail);
    assert [es[0]] + es[1..] == es;
  }

  /** Reading stops silently at a remainder that is not an entry, keeping the entries before it. */
  lemma {:induction false} TokensStopAtGarbage(es: seq<Entry>, garbage: string)
    requires AllWellFormed(es) && |es| > 0
    requires MatchEntry(garbage) == None
    ensures Tokens(Descriptor(es) + "," + garbage) == es
  {
    if |es| == 1 {
      assert Descriptor(es) + "," + garbage == Render(es[0]) + ("," + garbage);
      TokensRendered(es[0], "," + garbage, garbage);
      assert Tokens(garbage) == [];
    } else {
      TokensStopAtGarbage(es[1..], garbage);
      TokensStopAtGarbageCons(es, garbage);
    }
  }

  lemma {:induction false} TokensStopAtGarbageCons(es: seq<Entry>, garbage: string)
    requires AllWellFormed(es) && |es| > 1
    requires Tokens(Descriptor(es[1..]) + "," + garbage) == es[1..]
    ensures Tokens(Descriptor(es) + "," + garbage) == es
  {
    var tail := Descriptor(es[1..]) + "," + garbage;
    DescriptorThenGarbage(es, garbage);
    TokensRendered(es[0], "," + tail, tail);
    assert [es[0]] + es[1..] == es;
  }

  lemma {:induction false} DescriptorThenGarbage(es: seq<Entry>, garbage: string)
    requires AllWellFormed(es) && |es| > 1
    ensures Descriptor(es) + "," + garbage == Render(es[0]) + ("," + (Descriptor(es[1..]) + "," + garbage))
  {
    DescriptorCons(es);
    CommaRegroup(Descriptor(es), Render(es[0]), Descriptor(es[1..]), garbage);
  }
}
