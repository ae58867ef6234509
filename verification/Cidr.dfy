/**
 Trusted-proxy checks: CIDR blocks by mask arithmetic on machine words (section
 3.1 of RFC 4632) and the choice of the client address.
 */
module Cidr {
  import opened Common

  /** An unsigned machine word of any width, most significant bit first. */
  type Word = seq<bool>

  function Value(w: Word): nat {
    if w == [] then 0 else 2 * Value(w[..|w| - 1]) + if w[|w| - 1] then 1 else 0
  }

  function Zeros(width: nat): (w: Word)
    ensures |w| == width
  {
    seq(width, _ => false)
  }

  function Not(a: Word): (w: Word)
    ensures |w| == |a|
  {
    seq(|a|, i requires 0 <= i < |a| => !a[i])
  }

  function And(a: Word, b: Word): (w: Word)
    requires |a| == |b|
    ensures |w| == |a|
  {
    seq(|a|, i requires 0 <= i < |a| => a[i] && b[i])
  }

  /** Shift left; the top bits are lost and zeros move in. A full-width shift is not allowed. */
  function Shl(a: Word, k: nat): (w: Word)
    requires k < |a|
    ensures |w| == |a|
  {
    a[k..] + Zeros(k)
  }

  function Mask(width: nat, prefix: nat): (w: Word)
    requires prefix <= width
    ensures |w| == width
  {
    if prefix == 0 then Zeros(width) else Shl(Not(Zeros(width)), width - prefix)
  }

  predicate SameNetwork(ip: Word, net: Word, prefix: nat)
    requires |ip| == |net| && prefix <= |ip|
  {
    And(ip, Mask(|ip|, prefix)) == And(net, Mask(|ip|, prefix))
  }

  type Word32 = w: Word | |w| == 32 witness Zeros(32)
  type Word128 = w: Word | |w| == 128 witness Zeros(128)

  datatype Ip = V4(v4: Word32) | V6(v6: Word128) {
    function Bits(): Word { if V4? then v4 else v6 }
    predicate SameFamily(other: Ip) { V4? == other.V4? }
  }

  predicate IpInCidr(ip: Ip, net: Ip, prefix: nat) {
    match (ip, net)
    case (V4(a), V4(b)) => prefix <= 32 && SameNetwork(a, b, prefix)
    case (V6(a), V6(b)) => prefix <= 128 && SameNetwork(a, b, prefix)
    case _ => false
  }

  // ---- The mask test is a comparison of quotients ----

  /** Masking compares exactly the leading bits. */
  lemma SameNetworkIffPrefix(ip: Word, net: Word, prefix: nat)
    requires |ip| == |net| && prefix <= |ip|
    ensures SameNetwork(ip, net, prefix) <==> ip[..prefix] == net[..prefix]
  {
    var mask := Mask(|ip|, prefix);
    assert forall i :: 0 <= i < |ip| ==> mask[i] == (i < prefix);
    var a, b := And(ip, mask), And(net, mask);
    if a == b {
      forall i | 0 <= i < prefix
        ensures ip[i] == net[i]
      {
        assert a[i] == ip[i] && b[i] == net[i];
      }
    }
    if ip[..prefix] == net[..prefix] {
      forall i | 0 <= i < |ip|
        ensures a[i] == b[i]
      {
        assert i < prefix ==> ip[i] == ip[..prefix][i] && net[i] == net[..prefix][i];
      }
    }
  }

  lemma {:induction false} ValueBound(w: Word)
    ensures Value(w) < Pow2(|w|)
  {
    if w != [] {
      ValueBound(w[..|w| - 1]);
    }
  }

  lemma {:induction false} ValueSplit(w: Word, p: nat)
    requires p <= |w|
    ensures Value(w) == Value(w[..p]) * Pow2(|w| - p) + Value(w[p..])
  {
    if p == |w| {
      assert w[..p] == w;
    } else {
      var front := w[..|w| - 1];
      ValueSplit(front, p);
      assert front[..p] == w[..p];
      assert w[p..][..|w| - p - 1] == front[p..];
      var high, factor := Value(w[..p]), Pow2(|front| - p);
      assert Value(w[p..]) == 2 * Value(front[p..]) + Value(w) - 2 * Value(front);
      DoubleFactor(high, factor);
      assert Pow2(|w| - p) == 2 * factor;
    }
  }

  lemma {:induction false} ValueInjective(a: Word, b: Word)
    requires |a| == |b| && Value(a) == Value(b)
    ensures a == b
  {
    if a != [] {
      ValueInjective(a[..|a| - 1], b[..|b| - 1]);
      assert a == a[..|a| - 1] + [a[|a| - 1]];
      assert b == b[..|b| - 1] + [b[|b| - 1]];
    }
  }

  lemma QuotientIsPrefix(w: Word, p: nat)
    requires p <= |w|
    ensures Value(w) / Pow2(|w| - p) == Value(w[..p])
  {
    ValueSplit(w, p);
    ValueBound(w[p..]);
    QuotientIs(Value(w), Pow2(|w| - p), Value(w[..p]));
  }

  /** For every width and prefix length, the mask test holds exactly when the quotients are equal. */
  lemma SameNetworkIffQuotient(ip: Word, net: Word, prefix: nat)
    requires |ip| == |net| && prefix <= |ip|
    ensures SameNetwork(ip, net, prefix) <==>
            Value(ip) / Pow2(|ip| - prefix) == Value(net) / Pow2(|ip| - prefix)
  {
    SameNetworkIffPrefix(ip, net, prefix);
    QuotientIsPrefix(ip, prefix);
    QuotientIsPrefix(net, prefix);
    if Value(ip[..prefix]) == Value(net[..prefix]) {
      ValueInjective(ip[..prefix], net[..prefix]);
    }
  }

  lemma InCidrIffSameNetwork(ip: Ip, net: Ip, prefix: nat)
    ensures IpInCidr(ip, net, prefix) <==>
            ip.SameFamily(net) && prefix <= |net.Bits()| && SameNetwork(ip.Bits(), net.Bits(), prefix)
  {
  }

  lemma InCidrIffPrefix(ip: Ip, net: Ip, prefix: nat)
    ensures IpInCidr(ip, net, prefix) <==>
            ip.SameFamily(net) && prefix <= |net.Bits()| && ip.Bits()[..prefix] == net.Bits()[..prefix]
  {
    InCidrIffSameNetwork(ip, net, prefix);
    if ip.SameFamily(net) && prefix <= |net.Bits()| {
      SameNetworkIffPrefix(ip.Bits(), net.Bits(), prefix);
    }
  }

  /** Shortening the prefix of a block only adds addresses. */
  lemma ShorterPrefixAdds(ip: Ip, net: Ip, p: nat, q: nat)
    requires p <= q && IpInCidr(ip, net, q)
    ensures IpInCidr(ip, net, p)
  {
    InCidrIffPrefix(ip, net, p);
    InCidrIffPrefix(ip, net, q);
    assert ip.Bits()[..p] == ip.Bits()[..q][..p];
    assert net.Bits()[..p] == net.Bits()[..q][..p];
  }

  /** Two blocks that share an address are nested: the longer prefix lies inside the shorter. */
  lemma NestedOrDisjoint(n1: Ip, p1: nat, n2: Ip, p2: nat, shared: Ip, ip: Ip)
    requires p1 <= p2 && IpInCidr(shared, n1, p1) && IpInCidr(shared, n2, p2) && IpInCidr(ip, n2, p2)
    ensures IpInCidr(ip, n1, p1)
  {
    ShorterPrefixAdds(shared, n2, p1, p2);
    ShorterPrefixAdds(ip, n2, p1, p2);
    InCidrIffPrefix(shared, n1, p1);
    InCidrIffPrefix(shared, n2, p1);
    InCidrIffPrefix(ip, n2, p1);
    InCidrIffPrefix(ip, n1, p1);
  }

  // ---- Trust lists ----

  /** A list entry after parsing; a part that does not parse is absent. */
  datatype Entry = Block(net: Option<Ip>, prefix: Option<nat>) | Plain(addr: Option<Ip>)

  predicate Matches(ip: Ip, entry: Entry) {
    match entry
    case Block(net, prefix) => net.Some? && prefix.Some? && IpInCidr(ip, net.value, prefix.value)
    case Plain(addr) => addr == Some(ip)
  }

  predicate IsTrustedProxy(ip: Ip, entries: seq<Entry>) {
    entries != [] && (Matches(ip, entries[0]) || IsTrustedProxy(ip, entries[1..]))
  }

  lemma {:induction false} TrustedIffSomeEntry(ip: Ip, entries: seq<Entry>)
    ensures IsTrustedProxy(ip, entries) <==> exists e :: e in entries && Matches(ip, e)
  {
    if entries != [] {
      TrustedIffSomeEntry(ip, entries[1..]);
      assert forall e :: e in entries <==> e == entries[0] || e in entries[1..];
    }
  }

  /** The entry names the address itself, or a network of its family whose leading bits it has. */
  ghost predicate Names(entry: Entry, ip: Ip) {
    match entry
    case Plain(addr) => addr == Some(ip)
    case Block(Some(V4(net)), Some(p)) => ip.V4? && p <= 32 && ip.v4[..p] == net[..p]
    case Block(Some(V6(net)), Some(p)) => ip.V6? && p <= 128 && ip.v6[..p] == net[..p]
    case Block(_, _) => false
  }

  /** An address is trusted exactly when some entry names it. */
  lemma TrustedIffNamed(ip: Ip, entries: seq<Entry>)
    ensures IsTrustedProxy(ip, entries) <==> exists e :: e in entries && Names(e, ip)
  {
    TrustedIffSomeEntry(ip, entries);
    forall e | e in entries
      ensures Matches(ip, e) <==> Names(e, ip)
    {
      if e.Block? && e.net.Some? && e.prefix.Some? {
        InCidrIffPrefix(ip, e.net.value, e.prefix.value);
      }
    }
  }

  /** Trust does not depend on order or repetition, and adding entries never revokes it. */
  lemma TrustMonotone(ip: Ip, a: seq<Entry>, b: seq<Entry>)
    requires forall e :: e in a ==> e in b
    ensures IsTrustedProxy(ip, a) ==> IsTrustedProxy(ip, b)
    ensures (forall e :: e in b ==> e in a) ==> IsTrustedProxy(ip, a) == IsTrustedProxy(ip, b)
  {
    TrustedIffSomeEntry(ip, a);
    TrustedIffSomeEntry(ip, b);
  }

  /** A plain address is its own full-length block. */
  lemma PlainIsFullBlock(ip: Ip, addr: Ip)
    ensures Matches(ip, Plain(Some(addr))) <==> Matches(ip, Block(Some(addr), Some(|addr.Bits()|)))
  {
    InCidrIffPrefix(ip, addr, |addr.Bits()|);
    if ip.SameFamily(addr) {
      assert ip.Bits()[..|addr.Bits()|] == ip.Bits();
      assert addr.Bits()[..|addr.Bits()|] == addr.Bits();
    }
  }

  // ---- Choosing the client address ----

  /** The text before the first comma. */
  function FirstHop(header: string): string {
    if header == [] || header[0] == ',' then [] else [header[0]] + FirstHop(header[1..])
  }

  /** The address to use when the forwarding header gives none. `parse` reads an address from trimmed text. */
  function Fallback(peer: Ip, realIp: Option<string>, parse: string -> Option<Ip>): Ip {
    if realIp.Some? && parse(realIp.value).Some? then parse(realIp.value).value else peer
  }

  function ExtractClientIp(peer: Ip, forwardedFor: Option<string>, realIp: Option<string>,
                           entries: seq<Entry>, parse: string -> Option<Ip>): Ip
  {
    if !IsTrustedProxy(peer, entries) then peer
    else
      var hop := if forwardedFor.Some? then parse(FirstHop(forwardedFor.value)) else None;
      if hop.Some? then hop.value else Fallback(peer, realIp, parse)
  }

  lemma {:induction false} FirstHopOfChain(sent: string, appended: string)
    ensures FirstHop(sent + "," + appended) == FirstHop(sent)
    ensures ',' !in FirstHop(sent)
    ensures ',' !in sent ==> FirstHop(sent) == sent
  {
    var header := sent + "," + appended;
    if sent == [] {
      assert header[0] == ',';
    } else {
      FirstHopOfChain(sent[1..], appended);
      assert header[0] == sent[0] && header[1..] == sent[1..] + "," + appended;
    }
  }

  /** `header` is `hop`, or `hop` with a comma and more behind it. */
  ghost predicate StartsWithHop(header: string, hop: string) {
    ',' !in hop && (header == hop || exists more :: header == hop + "," + more)
  }

  /**
   The client address for every combination of headers: that of an untrusted peer;
   behind a trusted one the first hop if it reads as an address, else the real-IP
   header if it does, else the peer.
   */
  lemma ClientAddress(peer: Ip, forwardedFor: Option<string>, hop: string, realIp: Option<string>,
                      entries: seq<Entry>, parse: string -> Option<Ip>)
    requires forwardedFor.Some? ==> StartsWithHop(forwardedFor.value, hop)
    ensures var trusted := exists e :: e in entries && Names(e, peer);
            var client := ExtractClientIp(peer, forwardedFor, realIp, entries, parse);
            && (!trusted ==> client == peer)
            && (trusted && forwardedFor.Some? && parse(hop).Some? ==> client == parse(hop).value)
            && (trusted && (forwardedFor.None? || parse(hop).None?) ==>
                  && (realIp.Some? && parse(realIp.value).Some? ==> client == parse(realIp.value).value)
                  && (realIp.None? || parse(realIp.value).None? ==> client == peer))
  {
    TrustedIffNamed(peer, entries);
    if forwardedFor.Some? {
      FirstHopOfChain(hop, "");
      if more :| forwardedFor.value == hop + "," + more {
        FirstHopOfChain(hop, more);
      }
    }
  }

  /** Some header text without a comma that reads as the given result. */
  ghost predicate CanWrite(parse: string -> Option<Ip>, result: Option<Ip>) {
    exists text :: ',' !in text && parse(text) == result
  }

  /**
   Which addresses a client can pass itself off as by what it puts in the forwarding
   header, whatever the proxy appends to it: behind an untrusted peer only the
   peer's own; behind a trusted peer every address that can be written, and the
   fallback if some text does not read as an address.
   */
  lemma ClientChoosesIff(peer: Ip, appended: string, realIp: Option<string>,
                         entries: seq<Entry>, parse: string -> Option<Ip>, x: Ip)
    ensures (exists sent :: ExtractClientIp(peer, Some(sent + "," + appended), realIp, entries, parse) == x) <==>
            if exists e :: e in entries && Names(e, peer)
            then CanWrite(parse, Some(x)) || (x == Fallback(peer, realIp, parse) && CanWrite(parse, None))
            else x == peer
  {
    TrustedIffNamed(peer, entries);
    if sent :| ExtractClientIp(peer, Some(sent + "," + appended), realIp, entries, parse) == x {
      FirstHopOfChain(sent, appended);
      assert parse(FirstHop(sent)) == Some(x) || parse(FirstHop(sent)) == None || !IsTrustedProxy(peer, entries);
    }
    if text :| ',' !in text && (parse(text) == Some(x) || (parse(text) == None && x == Fallback(peer, realIp, parse))) {
      FirstHopOfChain(text, appended);
      assert IsTrustedProxy(peer, entries) ==>
        ExtractClientIp(peer, Some(text + "," + appended), realIp, entries, parse) == x;
    }
    assert !IsTrustedProxy(peer, entries) ==>
      ExtractClientIp(peer, Some("" + "," + appended), realIp, entries, parse) == peer;
  }
}
