// The client address behind the proxy chain: X-Forwarded-For read from the right, down to the
// first address that is not one of ours.

module ForwardedHeader {
  import opened Prelude

  /** An address; the unspecified one stands in when there is no peer. */
  datatype Ip = V4(bits: nat) | V6(bits: nat)

  const UNSPECIFIED: Ip := V4(0)

  predicate IsSpace(c: char) {
    c == ' ' || c == '\t'
  }

  function TrimStart(s: string): string {
    if s != "" && IsSpace(s[0]) then TrimStart(s[1..]) else s
  }

  function TrimEnd(s: string): string {
    if s != "" && IsSpace(s[|s| - 1]) then TrimEnd(s[..|s| - 1]) else s
  }

  function Trim(s: string): string {
    TrimEnd(TrimStart(s))
  }

  ghost predicate Blank(s: string) {
    forall i :: 0 <= i < |s| ==> IsSpace(s[i])
  }

  lemma {:induction false} TrimStartExactly(s: string) returns (before: string)
    ensures s == before + TrimStart(s) && Blank(before)
    ensures TrimStart(s) != "" ==> !IsSpace(TrimStart(s)[0])
  {
    if s != "" && IsSpace(s[0]) {
      var rest := TrimStartExactly(s[1..]);
      before := [s[0]] + rest;
      assert s == [s[0]] + s[1..];
    } else {
      before := "";
    }
  }

  lemma {:induction false} TrimEndExactly(s: string) returns (after: string)
    ensures s == TrimEnd(s) + after && Blank(after)
    ensures TrimEnd(s) != "" ==> !IsSpace(TrimEnd(s)[|TrimEnd(s)| - 1]) && TrimEnd(s)[0] == s[0]
  {
    if s != "" && IsSpace(s[|s| - 1]) {
      var rest := TrimEndExactly(s[..|s| - 1]);
      after := rest + [s[|s| - 1]];
      assert s == s[..|s| - 1] + [s[|s| - 1]];
    } else {
      after := "";
    }
  }

  /** Trimming takes the blanks at both ends, all of them and nothing else. */
  lemma TrimExactly(s: string) returns (before: string, after: string)
    ensures s == before + Trim(s) + after && Blank(before) && Blank(after)
    ensures Trim(s) != "" ==> !IsSpace(Trim(s)[0]) && !IsSpace(Trim(s)[|Trim(s)| - 1])
  {
    before := TrimStartExactly(s);
    after := TrimEndExactly(TrimStart(s));
  }

  /** The tokens between commas, one more than there are commas. */
  function Split(s: string): (tokens: seq<string>)
    ensures tokens != []
  {
    if s == "" then [""]
    else
      var rest := Split(s[1..]);
      if s[0] == ',' then [""] + rest else [[s[0]] + rest[0]] + rest[1..]
  }

  lemma {:induction false} SplitJoin(a: string, b: string)
    ensures Split(a + "," + b) == Split(a) + Split(b)
  {
    var s := a + "," + b;
    if a == "" {
      assert s[1..] == b;
    } else {
      assert s[1..] == a[1..] + "," + b;
      SplitJoin(a[1..], b);
    }
  }

  lemma {:induction false} SplitWhole(s: string)
    requires ',' !in s
    ensures Split(s) == [s]
  {
    if s != "" {
      SplitWhole(s[1..]);
      assert [s[0]] + s[1..] == s;
    }
  }

  /** What resolving depends on: how an entry is parsed and printed, and whom we trust. */
  datatype Config = Config(parse: string -> Option<Ip>, show: Ip -> string, trusted: Ip -> bool)

  /** A printed address is one token, and parses back. */
  ghost predicate PrintsWell(c: Config) {
    forall ip :: PrintsOne(c, ip)
  }

  ghost predicate PrintsOne(c: Config, ip: Ip) {
    var text := c.show(ip);
    && text != "" && ',' !in text
    && !IsSpace(text[0]) && !IsSpace(text[|text| - 1])
    && c.parse(text) == Some(ip)
  }

  // ---- The walk ----------------------------------------------------------------------------

  /** From the right: blanks skipped, trusted addresses passed, the first other address
      returned; junk ends the walk at the last trusted address seen. */
  function Walked(c: Config, tokens: seq<string>, innermost: Option<Ip>, peer: Ip): Ip {
    var stop := match innermost case Some(ip) => ip case None => peer;
    if tokens == [] then stop
    else
      var rest, token := tokens[..|tokens| - 1], Trim(tokens[|tokens| - 1]);
      if token == "" then Walked(c, rest, innermost, peer)
      else match c.parse(token)
        case None => stop
        case Some(ip) => if c.trusted(ip) then Walked(c, rest, Some(ip), peer) else ip
  }

  function Resolved(c: Config, peer: Option<Ip>, header: Option<string>): Ip {
    match peer
    case None => UNSPECIFIED
    case Some(p) =>
      if !c.trusted(p) || header.None? then p else Walked(c, Split(header.value), None, p)
  }

  method Resolve(c: Config, peer: Option<Ip>, header: Option<string>) returns (client: Ip)
    ensures client == Resolved(c, peer, header)
  {
    if peer.None? {
      return UNSPECIFIED;
    }
    if !c.trusted(peer.value) || header.None? {
      return peer.value;
    }
    var innermostTrusted: Option<Ip> := None;
    var tokens := Split(header.value);
    var i := |tokens|;
    assert tokens[..i] == tokens;
    while i > 0
      invariant 0 <= i <= |tokens|
      invariant Walked(c, tokens, None, peer.value)
             == Walked(c, tokens[..i], innermostTrusted, peer.value)
    {
      assert tokens[..i][..i - 1] == tokens[..i - 1];
      i := i - 1;
      var token := Trim(tokens[i]);
      if token == "" {
        continue;
      }
      match c.parse(token) {
        case None =>
          return if innermostTrusted.Some? then innermostTrusted.value else peer.value;
        case Some(ip) =>
          if !c.trusted(ip) {
            return ip;
          }
          innermostTrusted := Some(ip);
      }
    }
    return if innermostTrusted.Some? then innermostTrusted.value else peer.value;
  }

  // ---- What the walk finds -------------------------------------------------------------------

  /** The entries, trimmed, blanks left out. */
  function Entries(tokens: seq<string>): seq<string> {
    if tokens == [] then []
    else
      var token := Trim(tokens[|tokens| - 1]);
      Entries(tokens[..|tokens| - 1]) + (if token == "" then [] else [token])
  }

  /** The addresses of the longest run of parseable entries at the end. */
  function Addresses(c: Config, entries: seq<string>): seq<Ip> {
    if entries == [] then []
    else match c.parse(entries[|entries| - 1])
      case None => []
      case Some(ip) => Addresses(c, entries[..|entries| - 1]) + [ip]
  }

  ghost predicate RightmostUntrusted(c: Config, addresses: seq<Ip>, ip: Ip) {
    exists i :: 0 <= i < |addresses| && addresses[i] == ip && !c.trusted(ip)
      && forall j :: i < j < |addresses| ==> c.trusted(addresses[j])
  }

  ghost predicate AllTrusted(c: Config, addresses: seq<Ip>) {
    forall i :: 0 <= i < |addresses| ==> c.trusted(addresses[i])
  }

  /** The walk in terms of the addresses alone. */
  lemma {:induction false} WalkedIs(c: Config, tokens: seq<string>, innermost: Option<Ip>, peer: Ip)
    ensures var addresses, ip := Addresses(c, Entries(tokens)), Walked(c, tokens, innermost, peer);
            if AllTrusted(c, addresses) then
              ip == if addresses != [] then addresses[0]
                    else if innermost.Some? then innermost.value else peer
            else RightmostUntrusted(c, addresses, ip)
  {
    if tokens != [] {
      var rest, token := tokens[..|tokens| - 1], Trim(tokens[|tokens| - 1]);
      if token == "" {
        assert Entries(tokens) == Entries(rest);
        WalkedIs(c, rest, innermost, peer);
      } else {
        var entries := Entries(rest) + [token];
        assert Entries(tokens) == entries && entries[..|entries| - 1] == Entries(rest);
        if c.parse(token).Some? {
          var ip := c.parse(token).value;
          var before := Addresses(c, Entries(rest));
          assert Addresses(c, entries) == before + [ip];
          if c.trusted(ip) {
            WalkedIs(c, rest, Some(ip), peer);
            WithTrusted(c, before, ip, Walked(c, rest, Some(ip), peer));
          } else {
            assert (before + [ip])[|before|] == ip;
          }
        }
      }
    }
  }

  lemma WithTrusted(c: Config, before: seq<Ip>, last: Ip, ip: Ip)
    requires c.trusted(last)
    ensures AllTrusted(c, before + [last]) <==> AllTrusted(c, before)
    ensures RightmostUntrusted(c, before, ip) ==> RightmostUntrusted(c, before + [last], ip)
  {
    if AllTrusted(c, before + [last]) {
      forall i | 0 <= i < |before| ensures c.trusted(before[i]) {
        assert (before + [last])[i] == before[i];
      }
    }
    if RightmostUntrusted(c, before, ip) {
      var i :| 0 <= i < |before| && before[i] == ip && !c.trusted(ip)
        && forall j :: i < j < |before| ==> c.trusted(before[j]);
      assert (before + [last])[i] == ip;
    }
  }

  /** Behind a trusted peer: the rightmost untrusted address of the longest parseable end of the
      header, else that end's leftmost address, else the peer. */
  lemma ResolvedIs(c: Config, peer: Ip, header: string)
    requires c.trusted(peer)
    ensures var addresses, ip := Addresses(c, Entries(Split(header))), Resolved(c, Some(peer), Some(header));
            if AllTrusted(c, addresses) then ip == if addresses != [] then addresses[0] else peer
            else RightmostUntrusted(c, addresses, ip)
  {
    WalkedIs(c, Split(header), None, peer);
  }

  /** With no peer the unspecified address stands in; a peer outside the trusted set, or one that
      sent no header, is the client. */
  lemma PeerIsClient(c: Config, peer: Option<Ip>, header: Option<string>)
    ensures peer.None? ==> Resolved(c, peer, header) == V4(0)
    ensures peer.Some? && (!c.trusted(peer.value) || header.None?) ==> Resolved(c, peer, header) == peer.value
  {
  }

  // ---- A chain of proxies ----------------------------------------------------------------------

  /** The header once a proxy appended the address it saw. */
  function Appended(c: Config, header: Option<string>, seen: Ip): string {
    match header
    case None => c.show(seen)
    case Some(h) => h + ", " + c.show(seen)
  }

  /** What a client's header becomes through proxies that saw `hops`, in order. */
  function Forwarded(c: Config, sent: Option<string>, hops: seq<Ip>): Option<string> {
    if hops == [] then sent
    else Some(Appended(c, Forwarded(c, sent, hops[..|hops| - 1]), hops[|hops| - 1]))
  }

  /** The addresses a header gives, none when there is no header. */
  function Given(c: Config, header: Option<string>): seq<Ip> {
    match header
    case None => []
    case Some(h) => Addresses(c, Entries(Split(h)))
  }

  lemma TrimPrinted(c: Config, ip: Ip)
    requires PrintsOne(c, ip)
    ensures Trim(c.show(ip)) == c.show(ip) && Trim(" " + c.show(ip)) == c.show(ip)
  {
    assert (" " + c.show(ip))[1..] == c.show(ip);
  }

  lemma AppendedGives(c: Config, header: Option<string>, seen: Ip)
    requires PrintsWell(c)
    ensures Given(c, Some(Appended(c, header, seen))) == Given(c, header) + [seen]
  {
    var text := c.show(seen);
    assert PrintsOne(c, seen);
    TrimPrinted(c, seen);
    match header
    case None =>
      SplitWhole(text);
      assert [text][..0] == [];
      assert Entries([text]) == [text];
      assert Addresses(c, [text]) == [] + [seen];
    case Some(h) =>
      assert h + ", " + text == h + "," + (" " + text);
      SplitJoin(h, " " + text);
      SplitWhole(" " + text);
      var tokens := Split(h) + [" " + text];
      assert tokens[..|tokens| - 1] == Split(h);
      var entries := Entries(Split(h)) + [text];
      assert entries[..|entries| - 1] == Entries(Split(h));
  }

  lemma {:induction false} ForwardedGives(c: Config, sent: Option<string>, hops: seq<Ip>)
    requires PrintsWell(c)
    ensures Given(c, Forwarded(c, sent, hops)) == Given(c, sent) + hops
  {
    if hops == [] {
      assert Given(c, sent) + hops == Given(c, sent);
    } else {
      var before, last := hops[..|hops| - 1], hops[|hops| - 1];
      ForwardedGives(c, sent, before);
      AppendedGives(c, Forwarded(c, sent, before), last);
      assert before + [last] == hops;
    }
  }

  /** For a client outside the trusted set, behind any number of trusted proxies that each
      append the address they saw, the client is resolved whatever header it sent. */
  lemma ClientIsResolved(c: Config, client: Ip, proxies: seq<Ip>, sent: Option<string>)
    requires PrintsWell(c)
    requires !c.trusted(client) && AllTrusted(c, proxies)
    ensures var path := [client] + proxies;
            Resolved(c, Some(path[|path| - 1]), Forwarded(c, sent, path[..|path| - 1])) == client
  {
    var path := [client] + proxies;
    var peer, hops := path[|path| - 1], path[..|path| - 1];
    if proxies != [] {
      var header := Forwarded(c, sent, hops).value;
      var before := Given(c, sent);
      ForwardedGives(c, sent, hops);
      ResolvedIs(c, peer, header);
      assert Addresses(c, Entries(Split(header))) == before + hops;
      OnlyClient(c, before, client, hops, Resolved(c, Some(peer), Some(header)));
    }
  }

  /** The rightmost untrusted address of a chain that ends in the client and our proxies is the
      client. */
  lemma OnlyClient(c: Config, before: seq<Ip>, client: Ip, hops: seq<Ip>, ip: Ip)
    requires hops != [] && hops[0] == client && !c.trusted(client)
    requires forall i :: 1 <= i < |hops| ==> c.trusted(hops[i])
    requires RightmostUntrusted(c, before + hops, ip) || AllTrusted(c, before + hops)
    ensures ip == client && !AllTrusted(c, before + hops)
  {
    var all := before + hops;
    assert all[|before|] == client;
    if RightmostUntrusted(c, all, ip) {
      var i :| 0 <= i < |all| && all[i] == ip && !c.trusted(ip)
        && forall j :: i < j < |all| ==> c.trusted(all[j]);
      forall j | |before| < j < |all| ensures c.trusted(all[j]) {
        assert all[j] == hops[j - |before|];
      }
    }
  }
}
