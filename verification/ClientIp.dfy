/** The client address behind a configured number of trusted proxies. */
module ClientIp {
  import opened Common
  import opened Text

  /** The characters Python's str.strip() removes. */
  predicate IsSpace(c: char) {
    var u := c as int;
    || 0x09 <= u <= 0x0d || 0x1c <= u <= 0x20 || u == 0x85 || u == 0xa0 || u == 0x1680
    || 0x2000 <= u <= 0x200a || u == 0x2028 || u == 0x2029 || u == 0x202f || u == 0x205f || u == 0x3000
  }

  function StripLeft(s: string): string {
    if s != "" && IsSpace(s[0]) then StripLeft(s[1..]) else s
  }

  function StripRight(s: string): string {
    if s != "" && IsSpace(s[|s| - 1]) then StripRight(s[..|s| - 1]) else s
  }

  function Strip(s: string): string {
    StripRight(StripLeft(s))
  }

  function StripAll(parts: seq<string>): seq<string> {
    if parts == [] then []
    else
      var last := Strip(parts[|parts| - 1]);
      StripAll(parts[..|parts| - 1]) + if last != "" then [last] else []
  }

  /** The non-empty trimmed parts of a comma-separated header. */
  function Parts(header: string): seq<string> {
    StripAll(Split(header, ','))
  }

  function ClientIp(client: Option<string>, header: string, trustedProxies: int): string {
    var peer := client.GetOr("unknown");
    if trustedProxies <= 0 then peer
    else
      var forwarded := Parts(header);
      if |forwarded| < trustedProxies then peer
      else (forwarded + [peer])[|forwarded| + 1 - (trustedProxies + 1)]
  }

  // ---------------------------------------------------------------------
  // A chain of proxies, each appending the address of its own peer.
  // ---------------------------------------------------------------------

  /** An address and the blanks a proxy writes before it. */
  datatype Hop = Hop(padding: string, address: string)

  predicate Valid(hop: Hop) {
    && (forall c :: c in hop.padding ==> IsSpace(c))
    && hop.address != "" && ',' !in hop.address
    && !IsSpace(hop.address[0]) && !IsSpace(hop.address[|hop.address| - 1])
  }

  /** Any padding of blanks before, and any text of one character or more without blanks and commas, will do. */
  lemma OrdinaryHops(padding: string, address: string)
    requires forall c :: c in padding ==> c == ' ' || c == '\t'
    requires address != "" && forall i :: 0 <= i < |address| ==> address[i] != ',' && !IsSpace(address[i])
    ensures Valid(Hop(padding, address))
  {
  }

  function Forward(header: string, hop: Hop): string {
    if header == "" then hop.address else header + "," + hop.padding + hop.address
  }

  function ForwardAll(header: string, hops: seq<Hop>): string {
    if hops == [] then header else Forward(ForwardAll(header, hops[..|hops| - 1]), hops[|hops| - 1])
  }

  function Addresses(hops: seq<Hop>): (a: seq<string>)
    ensures |a| == |hops| && forall i :: 0 <= i < |hops| ==> a[i] == hops[i].address
  {
    if hops == [] then [] else Addresses(hops[..|hops| - 1]) + [hops[|hops| - 1].address]
  }

  lemma {:induction false} StripPadding(hop: Hop)
    requires Valid(hop)
    ensures Strip(hop.padding + hop.address) == hop.address
    decreases |hop.padding|
  {
    var s := hop.padding + hop.address;
    if hop.padding == "" {
      assert s == hop.address;
    } else {
      assert s[1..] == hop.padding[1..] + hop.address;
      assert s[0] == hop.padding[0];
      StripPadding(Hop(hop.padding[1..], hop.address));
    }
  }

  lemma StripAllAppend(parts: seq<string>, x: string)
    ensures StripAll(parts + [x]) == StripAll(parts) + if Strip(x) != "" then [Strip(x)] else []
  {
    assert (parts + [x])[..|parts|] == parts;
  }

  lemma OnePart(hop: Hop)
    requires Valid(hop)
    ensures Parts(hop.address) == [hop.address]
  {
    SplitNothing(hop.address, ',');
    StripPadding(Hop("", hop.address));
    assert "" + hop.address == hop.address;
    StripAllAppend([], hop.address);
    assert [] + [hop.address] == [hop.address];
    hide Strip, Split;
  }

  lemma NoParts()
    ensures Parts("") == []
  {
    StripAllAppend([], "");
    assert [] + [""] == [""];
  }

  lemma PartsOfForward(header: string, hop: Hop)
    requires Valid(hop)
    ensures Parts(Forward(header, hop)) == Parts(header) + [hop.address]
  {
    if header == "" {
      OnePart(hop);
      NoParts();
      hide Parts;
    } else {
      var part := hop.padding + hop.address;
      assert ',' !in part by { assert !IsSpace(','); }
      assert Forward(header, hop) == header + [','] + part;
      SplitAppend(header, part, ',');
      StripPadding(hop);
      StripAllAppend(Split(header, ','), part);
      hide StripAll, Strip, Split, Valid;
    }
  }

  lemma {:induction false} PartsOfForwardAll(header: string, hops: seq<Hop>)
    requires forall i :: 0 <= i < |hops| ==> Valid(hops[i])
    ensures Parts(ForwardAll(header, hops)) == Parts(header) + Addresses(hops)
  {
    if hops != [] {
      PartsOfForwardAll(header, hops[..|hops| - 1]);
      PartsOfForward(ForwardAll(header, hops[..|hops| - 1]), hops[|hops| - 1]);
    }
  }

  /** Behind at least the configured number of proxies, the result is the address that the outermost trusted
      one saw: the hop that many from the end, whatever header came before and whichever peer is last. */
  lemma TheOutermostProxysPeer(client: Option<string>, supplied: string, hops: seq<Hop>, trustedProxies: nat)
    requires 0 < trustedProxies <= |hops| && forall i :: 0 <= i < |hops| ==> Valid(hops[i])
    ensures ClientIp(client, ForwardAll(supplied, hops), trustedProxies) == hops[|hops| - trustedProxies].address
  {
    hide Parts, ForwardAll, Valid;
    PartsOfForwardAll(supplied, hops);
    var parts, addresses := Parts(supplied), Addresses(hops);
    assert (parts + addresses)[|parts| + |hops| - trustedProxies] == addresses[|hops| - trustedProxies];
  }

  /** Without trusted proxies the header is not read: the result is the peer, "unknown" when there is none. */
  lemma WithoutProxiesThePeer(client: Option<string>, header: string, trustedProxies: int)
    requires trustedProxies <= 0
    ensures client.Some? ==> ClientIp(client, header, trustedProxies) == client.value
    ensures client.None? ==> ClientIp(client, header, trustedProxies) == "unknown"
  {
  }

  /** A header with fewer addresses than trusted proxies is not believed either. */
  lemma TooFewAddresses(client: Option<string>, header: string, trustedProxies: int)
    requires |Parts(header)| < trustedProxies
    ensures client.Some? ==> ClientIp(client, header, trustedProxies) == client.value
    ensures client.None? ==> ClientIp(client, header, trustedProxies) == "unknown"
  {
  }

  /** Proxies fewer than trusted, with nothing before them: the peer. */
  lemma TooFewProxies(client: Option<string>, hops: seq<Hop>, trustedProxies: int)
    requires |hops| < trustedProxies && forall i :: 0 <= i < |hops| ==> Valid(hops[i])
    ensures ClientIp(client, ForwardAll("", hops), trustedProxies) == ClientIp(client, "", 0)
  {
    hide Parts, ForwardAll, Valid;
    PartsOfForwardAll("", hops);
    NoParts();
  }

  // ---------------------------------------------------------------------
  // The parts of a header.
  // ---------------------------------------------------------------------

  predicate AllSpaces(s: string) {
    forall i :: 0 <= i < |s| ==> IsSpace(s[i])
  }

  /** Strip takes white space off both ends, and nothing else. */
  lemma StripIsCore(s: string)
    ensures var core := Strip(s);
            && (core != "" ==> !IsSpace(core[0]) && !IsSpace(core[|core| - 1]))
            && exists a, b :: s == a + core + b && AllSpaces(a) && AllSpaces(b)
  {
    var a, b := StripParts(s);
    assert s == a + Strip(s) + b;
  }

  lemma StripParts(s: string) returns (a: string, b: string)
    ensures s == a + Strip(s) + b && AllSpaces(a) && AllSpaces(b)
    ensures Strip(s) != "" ==> !IsSpace(Strip(s)[0]) && !IsSpace(Strip(s)[|Strip(s)| - 1])
  {
    a := LeftSpaces(s);
    b := RightSpaces(StripLeft(s));
    assert s == a + (Strip(s) + b);
    assert a + (Strip(s) + b) == a + Strip(s) + b;
    assert Strip(s) != "" ==> Strip(s)[0] == StripLeft(s)[0];
  }

  lemma {:induction false} LeftSpaces(s: string) returns (a: string)
    ensures s == a + StripLeft(s) && AllSpaces(a)
    ensures StripLeft(s) != "" ==> !IsSpace(StripLeft(s)[0])
  {
    if s != "" && IsSpace(s[0]) {
      a := LeftSpaces(s[1..]);
      assert s == [s[0]] + s[1..];
      a := [s[0]] + a;
    } else {
      a := "";
    }
  }

  lemma {:induction false} RightSpaces(s: string) returns (b: string)
    ensures s == StripRight(s) + b && AllSpaces(b)
    ensures StripRight(s) != "" ==> !IsSpace(StripRight(s)[|StripRight(s)| - 1])
  {
    if s != "" && IsSpace(s[|s| - 1]) {
      b := RightSpaces(s[..|s| - 1]);
      assert s == s[..|s| - 1] + [s[|s| - 1]];
      b := b + [s[|s| - 1]];
    } else {
      b := "";
    }
  }

  /** The white space of Unicode and the four information separators. */
  lemma WhiteSpace(c: char)
    ensures IsSpace(c) <==>
            c as int in {0x09, 0x0a, 0x0b, 0x0c, 0x0d, 0x1c, 0x1d, 0x1e, 0x1f, 0x20, 0x85, 0xa0, 0x1680, 0x2000, 0x2001, 0x2002,
                         0x2003, 0x2004, 0x2005, 0x2006, 0x2007, 0x2008, 0x2009, 0x200a, 0x2028, 0x2029, 0x202f, 0x205f, 0x3000}
  {
  }
}
