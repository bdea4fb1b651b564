/** Who is calling: address blocks and the walk along the forwarding header (src/ratelimit.rs 162-254). */
module ClientAddress {
  import opened Options
  import opened Text

  type Bits32 = b: seq<bool> | |b| == 32 witness seq(32, _ => false)
  type Bits128 = b: seq<bool> | |b| == 128 witness seq(128, _ => false)

  /** Addresses as their bits, the most significant first. */
  datatype Ip = V4(v4: Bits32) | V6(v6: Bits128) {
    function Bits(): seq<bool> {
      if V4? then v4 else v6
    }
  }

  datatype Cidr = Cidr(net: Ip, prefix: nat)

  // ---------------------------------------------------------------------------- address blocks

  /** The bits shifted up by less than their width, zeros following. */
  function ShiftLeft(b: seq<bool>, by_: nat): (r: seq<bool>)
    requires by_ < |b|
    ensures |r| == |b|
  {
    b[by_..] + seq(by_, _ => false)
  }

  function And(a: seq<bool>, b: seq<bool>): (r: seq<bool>)
    requires |a| == |b|
    ensures |r| == |a|
  {
    seq(|a|, i requires 0 <= i < |a| => a[i] && b[i])
  }

  /** A shift by the whole width is undefined, so an empty prefix is a case of its own. */
  function MaskBits(width: nat, prefix: nat): (m: seq<bool>)
    requires prefix <= width
    ensures |m| == width
  {
    if prefix == 0 then seq(width, _ => false) else ShiftLeft(seq(width, _ => true), width - prefix)
  }

  function Mask(ip: Ip, prefix: nat): Ip
    requires prefix <= |ip.Bits()|
  {
    match ip
    case V4(a) => V4(And(a, MaskBits(32, prefix)))
    case V6(a) => V6(And(a, MaskBits(128, prefix)))
  }

  /** An IPv4 address written as `::ffff:a.b.c.d`. */
  predicate Mapped(b: Bits128) {
    (forall i | 0 <= i < 80 :: !b[i]) && forall i | 80 <= i < 96 :: b[i]
  }

  function Canonical(ip: Ip): Ip {
    if ip.V6? && Mapped(ip.v6) then V4(ip.v6[96..]) else ip
  }

  /** What an address canonically is: an IPv6 address of 80 zeros and 16 ones is the IPv4 address that follows, and
      any other address is itself. */
  lemma MappedExactly(b: Bits32, ip: Ip)
    ensures var mapped: Bits128 := seq(80, _ => false) + seq(16, _ => true) + b; Canonical(V6(mapped)) == V4(b)
    ensures ip.V4? ==> Canonical(ip) == ip
    ensures ip.V6? && ip.v6[..96] != seq(80, _ => false) + seq(16, _ => true) ==> Canonical(ip) == ip
  {
    var mapped: Bits128 := seq(80, _ => false) + seq(16, _ => true) + b;
    assert mapped[96..] == b;
    if ip.V6? && Mapped(ip.v6) {
      assert ip.v6[..96] == seq(80, _ => false) + seq(16, _ => true);
    }
  }

  predicate Contains(c: Cidr, ip: Ip) {
    var a := Canonical(ip);
    a.V4? == c.net.V4? && c.prefix <= |a.Bits()| && Mask(a, c.prefix) == c.net
  }

  /** The text before and after the first slash. */
  function SplitSlash(s: string): (string, Option<string>) {
    if s == "" then ("", None)
    else if s[0] == '/' then ("", Some(s[1..]))
    else
      var (a, p) := SplitSlash(s[1..]);
      ([s[0]] + a, p)
  }

  type IpParser = string -> Option<Ip>

  /** A block, or a bare address meaning exactly that address. */
  function ParseCidr(parse: IpParser, s: string): Option<Cidr> {
    var (addr, len) := SplitSlash(Trim(s));
    match parse(Trim(addr))
    case None => None
    case Some(ip) =>
      var net := Canonical(ip);
      var max := |net.Bits()|;
      var prefix := if len.None? then Some(max) else ParseNumber(Trim(len.value), 255);
      if prefix.None? || prefix.value > max then None else Some(Cidr(Mask(net, prefix.value), prefix.value))
  }

  lemma {:induction false} SplitAtSlash(s: string)
    ensures var (a, p) := SplitSlash(s);
            && '/' !in a
            && (p.None? ==> a == s)
            && (p.Some? ==> s == a + "/" + p.value)
  {
    if s != "" && s[0] != '/' {
      SplitAtSlash(s[1..]);
      assert s == [s[0]] + s[1..];
    }
  }

  /** Which blocks there are: without a slash the address alone, all its bits; with one the number that follows, if
      it is one and no more than the bits there are. Anything else is refused. */
  lemma PrefixOf(parse: IpParser, addr: string, len: Option<string>)
    requires '/' !in addr && Trim(addr) == addr && (len.Some? ==> Trim(addr + "/" + len.value) == addr + "/" + len.value)
    ensures var text := if len.Some? then addr + "/" + len.value else addr;
            var ip := parse(addr);
            ParseCidr(parse, text) ==
            if ip.None? then None
            else
              var bits := if Canonical(ip.value).V4? then 32 else 128;
              if len.None? then Some(Cidr(Canonical(ip.value), bits))
              else
                var asked := ParseNumber(Trim(len.value), 255);
                if asked.Some? && asked.value <= bits then Some(Cidr(Mask(Canonical(ip.value), asked.value), asked.value)) else None
  {
    var text := if len.Some? then addr + "/" + len.value else addr;
    SplitAtSlash(text);
    if len.Some? {
      SplitIs(addr, len.value);
    } else {
      NoSlashSplit(addr);
    }
    if parse(addr).Some? {
      WholeMask(Canonical(parse(addr).value));
    }
  }

  lemma {:induction false} SplitIs(a: string, p: string)
    requires '/' !in a
    ensures SplitSlash(a + "/" + p) == (a, Some(p))
  {
    var s := a + "/" + p;
    if a == "" {
      assert s == "/" + p && s[1..] == p;
    } else {
      assert s[1..] == a[1..] + "/" + p;
      SplitIs(a[1..], p);
      assert a == [a[0]] + a[1..];
    }
  }

  lemma {:induction false} NoSlashSplit(a: string)
    requires '/' !in a
    ensures SplitSlash(a) == (a, None)
  {
    if a != "" {
      NoSlashSplit(a[1..]);
      assert a == [a[0]] + a[1..];
    }
  }

  lemma WholeMask(ip: Ip)
    ensures Mask(ip, |ip.Bits()|) == ip
  {
    forall i | 0 <= i < |ip.Bits()| ensures Mask(ip, |ip.Bits()|).Bits()[i] == ip.Bits()[i] {
      MaskedBit(ip, |ip.Bits()|, i);
    }
    MaskedFamily(ip, |ip.Bits()|);
    assert Mask(ip, |ip.Bits()|).Bits() == ip.Bits();
  }

  predicate Agree(a: seq<bool>, b: seq<bool>, prefix: nat)
    requires prefix <= |a| && prefix <= |b|
  {
    forall i | 0 <= i < prefix :: a[i] == b[i]
  }

  lemma MaskedBit(ip: Ip, prefix: nat, i: nat)
    requires prefix <= |ip.Bits()| && i < |ip.Bits()|
    ensures Mask(ip, prefix).V4? == ip.V4? && Mask(ip, prefix).Bits()[i] == (i < prefix && ip.Bits()[i])
  {
    var w := |ip.Bits()|;
    assert prefix > 0 && i < prefix ==> MaskBits(w, prefix)[i] == seq(w, _ => true)[w - prefix + i];
  }

  lemma MaskAgrees(a: Ip, b: Ip, prefix: nat)
    requires a.V4? == b.V4? && prefix <= |a.Bits()|
    ensures Mask(a, prefix) == Mask(b, prefix) <==> Agree(a.Bits(), b.Bits(), prefix)
  {
    var x, y := Mask(a, prefix), Mask(b, prefix);
    forall i | 0 <= i < |a.Bits()|
      ensures x.Bits()[i] == (i < prefix && a.Bits()[i]) && y.Bits()[i] == (i < prefix && b.Bits()[i])
    {
      MaskedBit(a, prefix, i);
      MaskedBit(b, prefix, i);
    }
    if Agree(a.Bits(), b.Bits(), prefix) {
      assert x.Bits() == y.Bits();
    }
  }

  /** A parsed block holds exactly the addresses that, read as what they canonically are, share its family
      and its first `prefix` bits. */
  lemma ContainsIff(parse: IpParser, s: string, ip: Ip)
    requires ParseCidr(parse, s).Some?
    ensures var c := ParseCidr(parse, s).value;
            var a := parse(Trim(SplitSlash(Trim(s)).0));
            && a.Some? && c.prefix <= |Canonical(a.value).Bits()|
            && (Contains(c, ip) <==> Canonical(ip).V4? == Canonical(a.value).V4?
                                     && Agree(Canonical(ip).Bits(), Canonical(a.value).Bits(), c.prefix))
  {
    var c := ParseCidr(parse, s).value;
    var net := Canonical(parse(Trim(SplitSlash(Trim(s)).0)).value);
    if Canonical(ip).V4? == net.V4? {
      MaskAgrees(Canonical(ip), net, c.prefix);
    } else {
      MaskedFamily(net, c.prefix);
    }
  }

  lemma MaskedFamily(ip: Ip, prefix: nat)
    requires prefix <= |ip.Bits()|
    ensures Mask(ip, prefix).V4? == ip.V4?
  {
  }

  // ----------------------------------------------------------------------------------- buckets

  function Bucket(ip: Ip): Ip {
    var a := Canonical(ip);
    if a.V6? then Mask(a, 64) else a
  }

  /** An address that is not a mapped one is still not mapped once its low half is cleared. */
  lemma BucketIsCanonical(ip: Ip)
    ensures Canonical(Bucket(ip)) == Bucket(ip)
  {
    var a := Canonical(ip);
    if a.V6? {
      MaskedBit(a, 64, 80);
    }
  }

  /** A bucket is its own bucket, and two addresses share one exactly if they are the same IPv4 address or
      IPv6 addresses of the same /64. */
  lemma BucketSeparates(a: Ip, b: Ip)
    ensures Bucket(Bucket(a)) == Bucket(a)
    ensures var (x, y) := (Canonical(a), Canonical(b));
            Bucket(a) == Bucket(b) <==> x.V4? == y.V4? && (if x.V4? then x == y else Agree(x.Bits(), y.Bits(), 64))
  {
    BucketIsCanonical(a);
    var x, y := Canonical(a), Canonical(b);
    if x.V6? {
      MaskedFamily(x, 64);
      forall i | 0 <= i < 64 ensures Bucket(a).Bits()[i] == x.Bits()[i] {
        MaskedBit(x, 64, i);
      }
      MaskAgrees(Bucket(a), x, 64);
    }
    if y.V6? {
      MaskedFamily(y, 64);
    }
    if x.V6? && y.V6? {
      MaskAgrees(x, y, 64);
    }
  }

  // ----------------------------------------------------------------------- the forwarding header

  predicate Trusted(trusted: seq<Cidr>, ip: Ip) {
    exists c :: c in trusted && Contains(c, ip)
  }

  function NonEmpty(pieces: seq<string>): seq<string> {
    if pieces == [] then []
    else (if Trim(pieces[0]) == "" then [] else [Trim(pieces[0])]) + NonEmpty(pieces[1..])
  }

  /** The hops of a header, left to right. */
  function Hops(header: Option<string>): seq<string> {
    NonEmpty(Pieces(header.GetOr("")))
  }

  /** The hops are what stands between the commas, trimmed, where there is anything, left to right. */
  lemma HopsRead(text: string, more: string)
    ensures Hops(None) == [] && Hops(Some("")) == []
    ensures ',' !in text ==> Hops(Some(text)) == if Trim(text) == "" then [] else [Trim(text)]
    ensures Hops(Some(text + "," + more)) == Hops(Some(text)) + Hops(Some(more))
  {
    PiecesOfBoth(text, more);
    NonEmptyOfBoth(Pieces(text), Pieces(more));
    if ',' !in text {
      NoComma(text);
    }
    NoComma("");
  }

  /** The walk from the right: where it stands, and whether it has stopped. */
  function Walk(parse: IpParser, trusted: seq<Cidr>, hops: seq<string>, client: Ip): (Ip, bool) {
    if hops == [] then (client, false)
    else match parse(hops[|hops| - 1])
         case None => (client, true)
         case Some(ip) =>
           var next := Canonical(ip);
           if !Trusted(trusted, next) then (next, true) else Walk(parse, trusted, hops[..|hops| - 1], next)
  }

  lemma OneHop(parse: IpParser, trusted: seq<Cidr>, hops: seq<string>, i: nat, client: Ip)
    requires 0 < i <= |hops|
    ensures Walk(parse, trusted, hops[..i], client).0 ==
            match parse(hops[i - 1])
            case None => client
            case Some(ip) => if !Trusted(trusted, Canonical(ip)) then Canonical(ip)
                             else Walk(parse, trusted, hops[..i - 1], Canonical(ip)).0
  {
    assert hops[..i][..i - 1] == hops[..i - 1];
  }

  method ClientIp(parse: IpParser, peer: Ip, header: Option<string>, trusted: seq<Cidr>) returns (client: Ip)
    ensures client == Answer(parse, peer, header, trusted)
  {
    client := Canonical(peer);
    var known := IsTrusted(trusted, client);
    if !known {
      return;
    }
    var hops := Hops(header);
    var i := |hops|;
    assert hops[..i] == hops;
    while i > 0
      invariant 0 <= i <= |hops|
      invariant Walk(parse, trusted, hops, Canonical(peer)).0 == Walk(parse, trusted, hops[..i], client).0
    {
      OneHop(parse, trusted, hops, i, client);
      i := i - 1;
      var ip := parse(hops[i]);
      if ip.None? {
        return;
      }
      var next := Canonical(ip.value);
      known := IsTrusted(trusted, next);
      if !known {
        return next;
      }
      client := next;
    }
  }

  method IsTrusted(trusted: seq<Cidr>, ip: Ip) returns (r: bool)
    ensures r == Trusted(trusted, ip)
  {
    for i := 0 to |trusted|
      invariant forall k | 0 <= k < i :: !Contains(trusted[k], ip)
    {
      if Contains(trusted[i], ip) {
        return true;
      }
    }
    return false;
  }

  function Answer(parse: IpParser, peer: Ip, header: Option<string>, trusted: seq<Cidr>): Ip {
    var p := Canonical(peer);
    if Trusted(trusted, p) then Walk(parse, trusted, Hops(header), p).0 else p
  }

  /** Hops from `k` on are all addresses of trusted proxies. */
  ghost predicate TrustedFrom(parse: IpParser, trusted: seq<Cidr>, hops: seq<string>, k: nat) {
    forall j | k <= j < |hops| :: parse(hops[j]).Some? && Trusted(trusted, Canonical(parse(hops[j]).value))
  }

  /** The address that vouched for what stands left of `k`: the hop at `k`, or the peer itself. */
  function Voucher(parse: IpParser, hops: seq<string>, k: nat, peer: Ip): Ip {
    if k < |hops| && parse(hops[k]).Some? then Canonical(parse(hops[k]).value) else peer
  }

  lemma {:induction false} WalkAt(parse: IpParser, trusted: seq<Cidr>, hops: seq<string>, peer: Ip, k: nat)
    requires k <= |hops| && TrustedFrom(parse, trusted, hops, k)
    ensures Walk(parse, trusted, hops, peer) == Walk(parse, trusted, hops[..k], Voucher(parse, hops, k, peer))
    decreases |hops|
  {
    if k == |hops| {
      assert hops[..k] == hops;
    } else {
      var n := |hops| - 1;
      var next := Canonical(parse(hops[n]).value);
      WalkAt(parse, trusted, hops[..n], next, k);
      assert hops[..n][..k] == hops[..k];
    }
  }

  /** A peer that is no trusted proxy is the client, whatever the header claims. Behind a trusted one: the
      rightmost untrusted hop, if every hop to its right is an address; the last trusted hop, if the next one
      to its left is not an address; the leftmost hop, if all are trusted. `k` is where the trusted proxies on
      the right begin. So the client is a trusted proxy
      only where the header stops making sense or runs out. */
  lemma AnswerCases(parse: IpParser, peer: Ip, header: Option<string>, trusted: seq<Cidr>) returns (k: nat)
    ensures k <= |Hops(header)| && TrustedFrom(parse, trusted, Hops(header), k)
    ensures k > 0 ==> !TrustedFrom(parse, trusted, Hops(header), k - 1)
    ensures var hops := Hops(header);
            Answer(parse, peer, header, trusted) ==
            if !Trusted(trusted, Canonical(peer)) then Canonical(peer)
            else if k > 0 && parse(hops[k - 1]).Some? then Canonical(parse(hops[k - 1]).value)
            else Voucher(parse, hops, k, Canonical(peer))
    ensures Trusted(trusted, Answer(parse, peer, header, trusted))
       <==> Trusted(trusted, Canonical(peer)) && (k > 0 ==> parse(Hops(header)[k - 1]).None?)
  {
    k := WalkHasAnEnd(parse, trusted, Hops(header), |Hops(header)|);
    WalkAt(parse, trusted, Hops(header), Canonical(peer), k);
  }

  /** There is always a place from which on all hops are trusted proxies, and a leftmost one. */
  lemma {:induction false} WalkHasAnEnd(parse: IpParser, trusted: seq<Cidr>, hops: seq<string>, from_: nat) returns (k: nat)
    requires from_ <= |hops| && TrustedFrom(parse, trusted, hops, from_)
    ensures k <= from_ && TrustedFrom(parse, trusted, hops, k) && (k > 0 ==> !TrustedFrom(parse, trusted, hops, k - 1))
    decreases from_
  {
    if from_ > 0 && TrustedFrom(parse, trusted, hops, from_ - 1) {
      k := WalkHasAnEnd(parse, trusted, hops, from_ - 1);
    } else {
      k := from_;
    }
  }

  lemma {:induction false} NonEmptyOfBoth(a: seq<string>, b: seq<string>)
    ensures NonEmpty(a + b) == NonEmpty(a) + NonEmpty(b)
  {
    if a == [] {
      assert a + b == b;
    } else {
      assert (a + b)[1..] == a[1..] + b;
      NonEmptyOfBoth(a[1..], b);
    }
  }

  lemma {:induction false} WalkOfBoth(parse: IpParser, trusted: seq<Cidr>, left: seq<string>, right: seq<string>, client: Ip)
    ensures Walk(parse, trusted, left + right, client) ==
              var (ip, stopped) := Walk(parse, trusted, right, client);
              if stopped then (ip, true) else Walk(parse, trusted, left, ip)
    decreases |right|
  {
    if right == [] {
      assert left + right == left;
    } else {
      var n := |right| - 1;
      assert (left + right)[|left| + n] == right[n];
      assert (left + right)[..|left| + n] == left + right[..n];
      if parse(right[n]).Some? {
        WalkOfBoth(parse, trusted, left, right[..n], Canonical(parse(right[n]).value));
      }
    }
  }

  /** Text a caller puts on the left of a header cannot change the answer once the walk over the rest has
      stopped, or where the peer is no trusted proxy; otherwise the walk goes on from the last proxy as if that
      were the peer. */
  lemma TextOnTheLeft(parse: IpParser, peer: Ip, text: string, header: string, trusted: seq<Cidr>)
    ensures var (ip, stopped) := Walk(parse, trusted, Hops(Some(header)), Canonical(peer));
            Answer(parse, peer, Some(text + "," + header), trusted) ==
            if stopped || !Trusted(trusted, Canonical(peer)) then Answer(parse, peer, Some(header), trusted) else Walk(parse, trusted, Hops(Some(text)), ip).0
  {
    PiecesOfBoth(text, header);
    NonEmptyOfBoth(Pieces(text), Pieces(header));
    WalkOfBoth(parse, trusted, Hops(Some(text)), Hops(Some(header)), Canonical(peer));
  }

  /** The walk has stopped exactly if some hop is not the address of a trusted proxy. */
  lemma {:induction false} StoppedIff(parse: IpParser, trusted: seq<Cidr>, hops: seq<string>, client: Ip)
    ensures Walk(parse, trusted, hops, client).1 <==> !TrustedFrom(parse, trusted, hops, 0)
    decreases |hops|
  {
    if hops != [] {
      var n := |hops| - 1;
      if parse(hops[n]).Some? {
        StoppedIff(parse, trusted, hops[..n], Canonical(parse(hops[n]).value));
        assert TrustedFrom(parse, trusted, hops[..n], 0) && Trusted(trusted, Canonical(parse(hops[n]).value))
            ==> TrustedFrom(parse, trusted, hops, 0);
      }
    }
  }
}
