/**
 * The scanner: the endpoints to probe (every ngrok TCP port on every address), their division
 * into one chunk per worker thread, the resolution of ngrok's ten TCP host names, and the
 * probe ladder each worker runs on each endpoint. DNS is a `Resolver` parameter; the probes
 * talk to the `Network` parameter of MinecraftPinger.
 */
module NgrokScanner {
  import opened Results
  import opened JavaLang
  import opened Wire
  import opened PingResponses
  import opened MinecraftPinger

  /** The TCP ports ngrok hands out: [LOWER_PORT, UPPER_PORT). */
  const LOWER_PORT: int := 10000
  const UPPER_PORT: int := 20000
  const PORT_COUNT: nat := UPPER_PORT - LOWER_PORT

  /** The protocol version `scan` asks for in the status handshake (Minecraft 1.16.5). */
  const SCAN_PROTOCOL: Int32 := 754

  /** The number of ngrok TCP host names, `0.tcp…` to `9.tcp…`. */
  const NGROK_HOSTS: nat := 10

  type NgrokPort = p: int | LOWER_PORT <= p < UPPER_PORT witness LOWER_PORT

  datatype HostPortPair = HostPortPair(host: HostString, port: NgrokPort)

  // ---------------------------------------------------------------------------------------
  // generateTargetAddresses
  // ---------------------------------------------------------------------------------------

  /** Every ngrok port of one host, ascending. */
  function PortRange(host: HostString): (pairs: seq<HostPortPair>)
    ensures |pairs| == PORT_COUNT
    ensures forall i :: 0 <= i < PORT_COUNT ==> pairs[i] == HostPortPair(host, LOWER_PORT + i)
  {
    seq(PORT_COUNT, i requires 0 <= i < PORT_COUNT => HostPortPair(host, LOWER_PORT + i))
  }

  /** The targets of a list of hosts: each host's port range, host after host. */
  function TargetAddresses(hosts: seq<HostString>): seq<HostPortPair> {
    if hosts == [] then [] else PortRange(hosts[0]) + TargetAddresses(hosts[1..])
  }

  /** generateTargetAddresses: the outer loop over hosts, the inner loop over ports. */
  method GenerateTargetAddresses(hosts: seq<HostString>) returns (addresses: seq<HostPortPair>)
    ensures addresses == TargetAddresses(hosts)
  {
    addresses := [];
    for j := 0 to |hosts|
      invariant addresses == TargetAddresses(hosts[..j])
    {
      var host := hosts[j];
      var done := addresses;
      for port := LOWER_PORT to UPPER_PORT
        invariant addresses == done + PortRange(host)[..port - LOWER_PORT]
      {
        assert PortRange(host)[..port + 1 - LOWER_PORT]
            == PortRange(host)[..port - LOWER_PORT] + [HostPortPair(host, port)];
        addresses := addresses + [HostPortPair(host, port)];
      }
      assert PortRange(host)[..PORT_COUNT] == PortRange(host);
      TargetAddressesAppend(hosts[..j], [host]);
      assert hosts[..j + 1] == hosts[..j] + [host];
    }
    assert hosts[..|hosts|] == hosts;
  }

  lemma {:induction false} TargetAddressesAppend(a: seq<HostString>, b: seq<HostString>)
    ensures TargetAddresses(a + b) == TargetAddresses(a) + TargetAddresses(b)
  {
    if a != [] {
      assert (a + b)[1..] == a[1..] + b;
      TargetAddressesAppend(a[1..], b);
    } else {
      assert a + b == b;
    }
  }

  lemma DivModPorts(j: nat, r: nat)
    requires r < PORT_COUNT
    ensures (j * PORT_COUNT + r) / PORT_COUNT == j && (j * PORT_COUNT + r) % PORT_COUNT == r
  {
  }

  /**
   * The target list in closed form: exactly |hosts| × 10000 pairs, host-major, the ports of
   * each host ascending from 10000.
   */
  lemma {:induction false} TargetAddressesAt(hosts: seq<HostString>)
    ensures |TargetAddresses(hosts)| == |hosts| * PORT_COUNT
    ensures forall k :: 0 <= k < |hosts| * PORT_COUNT ==>
      k / PORT_COUNT < |hosts| &&
      TargetAddresses(hosts)[k] == HostPortPair(hosts[k / PORT_COUNT], LOWER_PORT + k % PORT_COUNT)
  {
    if hosts != [] {
      TargetAddressesAt(hosts[1..]);
      var t := TargetAddresses(hosts);
      forall k | 0 <= k < |hosts| * PORT_COUNT
        ensures k / PORT_COUNT < |hosts|
        ensures t[k] == HostPortPair(hosts[k / PORT_COUNT], LOWER_PORT + k % PORT_COUNT)
      {
        if k < PORT_COUNT {
          DivModPorts(0, k);
        } else {
          var k' := k - PORT_COUNT;
          DivModPorts(k' / PORT_COUNT, k' % PORT_COUNT);
          DivModPorts(k' / PORT_COUNT + 1, k' % PORT_COUNT);
        }
      }
    }
  }

  /** Every pair of a listed host and an ngrok port is a target, at a known place. */
  lemma TargetAddressesComplete(hosts: seq<HostString>, j: nat, port: NgrokPort)
    requires j < |hosts|
    ensures j * PORT_COUNT + (port - LOWER_PORT) < |TargetAddresses(hosts)|
    ensures TargetAddresses(hosts)[j * PORT_COUNT + (port - LOWER_PORT)] == HostPortPair(hosts[j], port)
  {
    TargetAddressesAt(hosts);
    DivModPorts(j, port - LOWER_PORT);
    MulMono(|hosts|, j + 1, PORT_COUNT);
  }

  // ---------------------------------------------------------------------------------------
  // split
  // ---------------------------------------------------------------------------------------

  /**
   * The chunk element `i` of `n` goes to: `(int) (i / (n / (double) parts))`, computed here
   * exactly as ⌊i·parts/n⌋.
   */
  function ChunkIndex(i: nat, n: nat, parts: nat): nat
    requires n > 0
  {
    i * parts / n
  }

  /** The first element index of chunk `c`: ⌈c·n/parts⌉. */
  function ChunkStart(c: nat, n: nat, parts: nat): nat
    requires parts > 0
  {
    (c * n + parts - 1) / parts
  }

  /** ⌊x/d⌋ ≥ c exactly when x ≥ c·d. */
  lemma FloorAtLeast(x: nat, d: nat, c: nat)
    requires d > 0
    ensures (x / d >= c) == (x >= c * d)
  {
    var q := x / d;
    assert x == q * d + x % d;
    if q >= c {
      MulMono(q, c, d);
    } else {
      MulMono(c, q + 1, d);
    }
  }

  /** Element `i` is at or after the start of chunk `c` exactly when its chunk is `c` or later. */
  lemma ChunkStartBound(c: nat, i: nat, n: nat, parts: nat)
    requires n > 0 && parts > 0
    ensures (ChunkStart(c, n, parts) <= i) == (ChunkIndex(i, n, parts) >= c)
  {
    FloorAtLeast(i * parts, n, c);
    FloorAtLeast(c * n + parts - 1, parts, i + 1);
    assert (i + 1) * parts == i * parts + parts;
    assert c * n == n * c;
  }

  /** Chunk starts never decrease. */
  lemma ChunkStartMono(c: nat, n: nat, parts: nat)
    requires n > 0 && parts > 0
    ensures ChunkStart(c, n, parts) <= ChunkStart(c + 1, n, parts)
  {
    var s := ChunkStart(c + 1, n, parts);
    ChunkStartBound(c + 1, s, n, parts);
    ChunkStartBound(c, s, n, parts);
  }

  /** Chunk indices never decrease along the list. */
  lemma ChunkIndexMono(i: nat, j: nat, n: nat, parts: nat)
    requires n > 0 && parts > 0 && i <= j
    ensures ChunkIndex(i, n, parts) <= ChunkIndex(j, n, parts)
  {
    MulMono(j, i, parts);
    FloorAtLeast(j * parts, n, ChunkIndex(i, n, parts));
    FloorAtLeast(i * parts, n, ChunkIndex(i, n, parts));
  }

  /** Elements of the list land in chunks below `parts`. */
  lemma ChunkIndexBelow(i: nat, n: nat, parts: nat)
    requires parts > 0 && i < n
    ensures ChunkIndex(i, n, parts) < parts
  {
    FloorAtLeast(i * parts, n, parts);
    MulMono(n, i + 1, parts);
    assert (i + 1) * parts == i * parts + parts;
    assert parts * n == n * parts;
  }

  /** The index one past the list would be chunk `parts`. */
  lemma ChunkIndexEnd(n: nat, parts: nat)
    requires n > 0 && parts > 0
    ensures ChunkIndex(n, n, parts) == parts
  {
    FloorAtLeast(n * parts, n, parts);
    FloorAtLeast(n * parts, n, parts + 1);
    assert (parts + 1) * n == parts * n + n;
    assert parts * n == n * parts;
  }

  function NumChunks(n: nat, parts: nat): nat
    requires parts > 0
  {
    if n == 0 then 0 else ChunkIndex(n - 1, n, parts) + 1
  }

  /** Chunk `c` of the result of `split`. */
  function Chunk<T>(list: seq<T>, parts: nat, c: nat): (chunk: seq<T>)
    requires parts > 0 && c < NumChunks(|list|, parts)
  {
    var n := |list|;
    ChunkIndexBelow(n - 1, n, parts);
    ChunkIndexEnd(n, parts);
    ChunkStartBound(c + 1, n, n, parts);
    ChunkStartMono(c, n, parts);
    list[ChunkStart(c, n, parts) .. ChunkStart(c + 1, n, parts)]
  }

  /** The chunks `split` returns, in closed form. */
  function SplitOf<T>(list: seq<T>, parts: nat): (chunks: seq<seq<T>>)
    requires parts > 0
    ensures |chunks| == NumChunks(|list|, parts)
  {
    seq(NumChunks(|list|, parts), c requires 0 <= c < NumChunks(|list|, parts) => Chunk(list, parts, c))
  }

  /**
   * split: each element is appended to the chunk its index maps to, after adding empty chunks
   * until that chunk exists.
   */
  method Split<T>(list: seq<T>, parts: int) returns (chunks: seq<seq<T>>)
    requires parts >= 1
    ensures chunks == SplitOf(list, parts)
  {
    var n := |list|;
    chunks := [];
    for i := 0 to n
      invariant i == 0 ==> chunks == []
      invariant i > 0 ==> |chunks| == ChunkIndex(i - 1, n, parts) + 1
      invariant SplitSoFar(list, parts, chunks, i)
    {
      var part := ChunkIndex(i, n, parts);
      if i > 0 {
        ChunkIndexMono(i - 1, i, n, parts);
      }
      ghost var before := |chunks|;
      while |chunks| <= part
        invariant before <= |chunks| <= part + 1
        invariant SplitSoFar(list, parts, chunks, i)
        decreases part + 1 - |chunks|
      {
        AddEmptyChunk(list, parts, chunks, i);
        chunks := chunks + [[]];
      }
      AddElement(list, parts, chunks, i);
      chunks := chunks[part := chunks[part] + [list[i]]];
    }
    if n > 0 {
      SplitComplete(list, parts, chunks);
    }
  }

  /** Every chunk so far holds the elements of its slice that come before element `i`. */
  ghost predicate SplitSoFar<T>(list: seq<T>, parts: nat, chunks: seq<seq<T>>, i: nat)
    requires parts > 0
  {
    forall c :: 0 <= c < |chunks| ==> ChunkSoFar(list, parts, chunks, c, i)
  }

  ghost predicate ChunkSoFar<T>(list: seq<T>, parts: nat, chunks: seq<seq<T>>, c: nat, i: nat)
    requires parts > 0 && c < |chunks|
  {
    var n := |list|;
    ChunkStart(c, n, parts) <= i <= n && ChunkStart(c, n, parts) <= Min(ChunkStart(c + 1, n, parts), i) &&
    chunks[c] == list[ChunkStart(c, n, parts) .. Min(ChunkStart(c + 1, n, parts), i)]
  }

  function Min(a: int, b: int): int {
    if a < b then a else b
  }

  /** A chunk created while padding starts, empty, at the element about to be placed. */
  lemma AddEmptyChunk<T>(list: seq<T>, parts: nat, chunks: seq<seq<T>>, i: nat)
    requires parts > 0 && i < |list|
    requires |chunks| <= ChunkIndex(i, |list|, parts)
    requires i > 0 ==> |chunks| > ChunkIndex(i - 1, |list|, parts)
    requires SplitSoFar(list, parts, chunks, i)
    ensures SplitSoFar(list, parts, chunks + [[]], i)
  {
    var n := |list|;
    var c := |chunks|;
    ChunkStartBound(c, i, n, parts);
    if i > 0 {
      ChunkStartBound(c, i - 1, n, parts);
    }
    ChunkStartMono(c, n, parts);
    var chunks' := chunks + [[]];
    assert ChunkSoFar(list, parts, chunks', c, i);
    forall d | 0 <= d < |chunks'|
      ensures ChunkSoFar(list, parts, chunks', d, i)
    {
      if d < c {
        assert ChunkSoFar(list, parts, chunks, d, i);
      }
    }
  }

  /** Appending element `i` to its chunk extends that chunk's slice and leaves the others whole. */
  lemma AddElement<T>(list: seq<T>, parts: nat, chunks: seq<seq<T>>, i: nat)
    requires parts > 0 && i < |list|
    requires |chunks| == ChunkIndex(i, |list|, parts) + 1
    requires SplitSoFar(list, parts, chunks, i)
    ensures var part := ChunkIndex(i, |list|, parts);
      SplitSoFar(list, parts, chunks[part := chunks[part] + [list[i]]], i + 1)
  {
    var n := |list|;
    var part := ChunkIndex(i, n, parts);
    var chunks' := chunks[part := chunks[part] + [list[i]]];
    var next := i + 1;
    forall c | 0 <= c < |chunks'|
      ensures ChunkSoFar(list, parts, chunks', c, next)
    {
      assert ChunkSoFar(list, parts, chunks, c, i);
      ChunkStartBound(c + 1, i, n, parts);
      if c == part {
        ChunkStartBound(part, i, n, parts);
        assert list[ChunkStart(c, n, parts) .. i + 1] == list[ChunkStart(c, n, parts) .. i] + [list[i]];
      }
    }
  }

  /** Once every element is placed, each chunk is its whole slice. */
  lemma SplitComplete<T>(list: seq<T>, parts: nat, chunks: seq<seq<T>>)
    requires parts > 0 && |list| > 0
    requires |chunks| == ChunkIndex(|list| - 1, |list|, parts) + 1
    requires SplitSoFar(list, parts, chunks, |list|)
    ensures chunks == SplitOf(list, parts)
  {
    var n := |list|;
    ChunkIndexBelow(n - 1, n, parts);
    ChunkIndexEnd(n, parts);
    forall c | 0 <= c < |chunks|
      ensures chunks[c] == Chunk(list, parts, c)
    {
      assert ChunkSoFar(list, parts, chunks, c, n);
      ChunkStartBound(c + 1, n, n, parts);
    }
  }

  /** The chunks laid end to end. */
  function Flatten<T>(chunks: seq<seq<T>>): seq<T> {
    if chunks == [] then [] else Flatten(chunks[..|chunks| - 1]) + chunks[|chunks| - 1]
  }

  /** The last chunk ends at the end of the list. */
  lemma LastChunkEnd(n: nat, parts: nat)
    requires n > 0 && parts > 0
    ensures ChunkStart(0, n, parts) == 0
    ensures ChunkStart(NumChunks(n, parts), n, parts) == n
  {
    ChunkIndexEnd(n, parts);
    ChunkIndexBelow(n - 1, n, parts);
    ChunkStartBound(NumChunks(n, parts), n, n, parts);
    ChunkStartBound(NumChunks(n, parts), n - 1, n, parts);
  }

  lemma {:induction false} FlattenChunks<T>(list: seq<T>, parts: nat, k: nat)
    requires parts > 0 && |list| > 0 && k <= NumChunks(|list|, parts)
    ensures ChunkStart(k, |list|, parts) <= |list|
    ensures Flatten(SplitOf(list, parts)[..k]) == list[..ChunkStart(k, |list|, parts)]
  {
    var n := |list|;
    var chunks := SplitOf(list, parts);
    ChunkIndexEnd(n, parts);
    ChunkIndexBelow(n - 1, n, parts);
    ChunkStartBound(k, n, n, parts);
    if k == 0 {
      LastChunkEnd(n, parts);
    } else {
      FlattenChunks(list, parts, k - 1);
      assert chunks[..k][..k - 1] == chunks[..k - 1];
      ChunkStartMono(k - 1, n, parts);
      assert list[..ChunkStart(k, n, parts)]
          == list[..ChunkStart(k - 1, n, parts)] + list[ChunkStart(k - 1, n, parts) .. ChunkStart(k, n, parts)];
    }
  }

  /** split loses and reorders nothing: the chunks in order are the list. */
  lemma SplitFlattens<T>(list: seq<T>, parts: nat)
    requires parts > 0
    ensures Flatten(SplitOf(list, parts)) == list
  {
    if |list| > 0 {
      var chunks := SplitOf(list, parts);
      FlattenChunks(list, parts, |chunks|);
      LastChunkEnd(|list|, parts);
      assert chunks[..|chunks|] == chunks;
    }
  }

  /** With no more parts than elements, consecutive elements' chunks differ by at most one. */
  lemma ChunkIndexStep(i: nat, n: nat, parts: nat)
    requires 0 < parts <= n
    ensures ChunkIndex(i + 1, n, parts) <= ChunkIndex(i, n, parts) + 1
  {
    var q := ChunkIndex(i, n, parts);
    FloorAtLeast(i * parts, n, q + 1);
    FloorAtLeast((i + 1) * parts, n, q + 2);
    assert (i + 1) * parts == i * parts + parts;
    assert (q + 2) * n == (q + 1) * n + n;
  }

  /** Chunk `c` of `split` is the slice between the starts of chunks `c` and `c + 1`. */
  lemma SplitOfAt<T>(list: seq<T>, parts: nat, c: nat)
    requires parts > 0 && c < NumChunks(|list|, parts)
    ensures ChunkStart(c, |list|, parts) <= ChunkStart(c + 1, |list|, parts) <= |list|
    ensures SplitOf(list, parts)[c] == list[ChunkStart(c, |list|, parts) .. ChunkStart(c + 1, |list|, parts)]
  {
    var n := |list|;
    ChunkIndexBelow(n - 1, n, parts);
    ChunkIndexEnd(n, parts);
    ChunkStartBound(c + 1, n, n, parts);
    ChunkStartMono(c, n, parts);
  }

  /** The number of chunks: at most `parts`, and exactly `parts` when 1 <= parts <= n. */
  lemma NumChunksBound(n: nat, parts: nat)
    requires parts > 0
    ensures NumChunks(n, parts) <= parts
    ensures parts <= n ==> NumChunks(n, parts) == parts
  {
    if n > 0 {
      ChunkIndexBelow(n - 1, n, parts);
      if parts <= n {
        FloorAtLeast((n - 1) * parts, n, parts - 1);
        assert (n - 1) * parts == n * parts - parts;
        assert (parts - 1) * n == parts * n - n;
      }
    }
  }

  /**
   * split never makes more than `parts` chunks and makes none of an empty list; with
   * 1 <= parts <= n it makes exactly `parts` chunks, none of them empty.
   */
  lemma SplitChunkCount<T>(list: seq<T>, parts: nat)
    requires parts > 0
    ensures |SplitOf(list, parts)| <= parts
    ensures list == [] ==> SplitOf(list, parts) == []
    ensures parts <= |list| ==> |SplitOf(list, parts)| == parts
    ensures parts <= |list| ==> forall c :: 0 <= c < parts ==> SplitOf(list, parts)[c] != []
  {
    NumChunksBound(|list|, parts);
    if parts <= |list| {
      forall c | 0 <= c < parts
        ensures SplitOf(list, parts)[c] != []
      {
        SplitOfAt(list, parts, c);
        ChunkNotEmpty(|list|, parts, c);
      }
    }
  }

  lemma ChunkNotEmpty(n: nat, parts: nat, c: nat)
    requires 0 < parts <= n && c < parts
    ensures ChunkStart(c, n, parts) < ChunkStart(c + 1, n, parts)
  {
    var i := ChunkStart(c, n, parts);
    ChunkStartBound(c, i, n, parts);
    if c == 0 {
      assert i == 0;
    } else {
      ChunkStartBound(c, i - 1, n, parts);
      ChunkIndexStep(i - 1, n, parts);
    }
    ChunkStartBound(c + 1, i, n, parts);
  }

  /** Element `i` sits in chunk ⌊i·parts/n⌋, at its offset from that chunk's start. */
  lemma SplitPlacement<T>(list: seq<T>, parts: nat, i: nat)
    requires parts > 0 && i < |list|
    ensures ChunkIndex(i, |list|, parts) < |SplitOf(list, parts)|
    ensures var c := ChunkIndex(i, |list|, parts);
      ChunkStart(c, |list|, parts) <= i &&
      i - ChunkStart(c, |list|, parts) < |SplitOf(list, parts)[c]| &&
      SplitOf(list, parts)[c][i - ChunkStart(c, |list|, parts)] == list[i]
  {
    var n := |list|;
    ChunkIndexMono(i, n - 1, n, parts);
    var c := ChunkIndex(i, n, parts);
    SplitOfAt(list, parts, c);
    ChunkStartBound(c, i, n, parts);
    ChunkStartBound(c + 1, i, n, parts);
  }

  // ---------------------------------------------------------------------------------------
  // resolveAllNgrokHostnames
  // ---------------------------------------------------------------------------------------

  /** DNS: the address a host name resolves to, or `None` for an UnknownHostException. */
  type Resolver = string -> Option<HostString>

  /** What the resolver callback hears: `resolving(host)`, then `resolved(host, success, address)`. */
  datatype ResolveEvent =
    | Resolving(host: string)
    | ResolvedHost(host: string, success: bool, address: Option<HostString>)

  /** The part between ".tcp" and "ngrok.io": nothing for the US region (or none given). */
  function RegionInfix(region: Option<string>): (infix: string)
    ensures |infix| >= 1 && infix[0] == '.' && infix[|infix| - 1] == '.'
    ensures region.None? ==> infix == "."
    ensures region.Some? ==> (infix == "." <==> EqualsIgnoreCase("us", region.value))
    ensures region.Some? && infix != "." ==> infix[1 .. |infix| - 1] == region.value
  {
    if region.None? || EqualsIgnoreCase("us", region.value) then "." else "." + region.value + "."
  }

  /** The decimal digit of `x`. */
  function DigitChar(x: nat): (c: char)
    requires x < 10
    ensures IsDigit(c)
  {
    ('0' as int + x) as char
  }

  /** The `x`-th ngrok TCP host name: `x + ".tcp" + infix + "ngrok.io"`. */
  function NgrokHost(x: nat, infix: string): (host: string)
    requires x < NGROK_HOSTS
    ensures |host| == |infix| + 13 && host[0] == DigitChar(x)
  {
    [DigitChar(x)] + ".tcp" + infix + "ngrok.io"
  }

  /** The ten host names are pairwise different, whatever the region. */
  lemma NgrokHostsDistinct(x: nat, y: nat, infix: string)
    requires x < NGROK_HOSTS && y < NGROK_HOSTS && x != y
    ensures NgrokHost(x, infix) != NgrokHost(y, infix)
  {
    assert NgrokHost(x, infix)[0] != NgrokHost(y, infix)[0];
  }

  /** Without a region the bare name is used. */
  lemma NgrokHostNoRegion()
    ensures NgrokHost(0, RegionInfix(None)) == "0.tcp.ngrok.io"
  {
    assert DigitChar(0) == '0';
    assert [DigitChar(0)] + ".tcp" + "." + "ngrok.io" == "0.tcp.ngrok.io";
  }

  /** The region "US", in any case, also gives the bare name. */
  lemma NgrokHostUs()
    ensures NgrokHost(3, RegionInfix(Some("US"))) == "3.tcp.ngrok.io"
  {
    assert ToLowerCase("US") == "us";
    assert DigitChar(3) == '3';
    assert [DigitChar(3)] + ".tcp" + "." + "ngrok.io" == "3.tcp.ngrok.io";
  }

  /** Any other region becomes a label of its own. */
  lemma NgrokHostEu()
    ensures NgrokHost(9, RegionInfix(Some("eu"))) == "9.tcp.eu.ngrok.io"
  {
    assert ToLowerCase("eu") == "eu";
    assert RegionInfix(Some("eu")) == "." + "eu" + ".";
    assert DigitChar(9) == '9';
    assert [DigitChar(9)] + ".tcp" + ("." + "eu" + ".") + "ngrok.io" == "9.tcp.eu.ngrok.io";
  }

  /**
   * The map after the first `k` host names: a host is put only when its address is not
   * already a value of the map.
   */
  function ResolvedMap(infix: string, resolve: Resolver, k: nat): map<string, HostString>
    requires k <= NGROK_HOSTS
  {
    if k == 0 then map[]
    else
      var addresses := ResolvedMap(infix, resolve, k - 1);
      var host := NgrokHost(k - 1, infix);
      match resolve(host)
      case None => addresses
      case Some(ip) => if ip in addresses.Values then addresses else addresses[host := ip]
  }

  /** The callback events for the first `k` host names. */
  function ResolveEvents(infix: string, resolve: Resolver, k: nat): seq<ResolveEvent>
    requires k <= NGROK_HOSTS
  {
    if k == 0 then []
    else
      var host := NgrokHost(k - 1, infix);
      ResolveEvents(infix, resolve, k - 1) + [Resolving(host), ResolvedHost(host, resolve(host).Some?, resolve(host))]
  }

  /**
   * resolveAllNgrokHostnames(region, cb): tries the ten host names in order and keeps the
   * first host name for each distinct address; `hasCallback` is `cb != null`.
   */
  method ResolveAllNgrokHostnames(region: Option<string>, resolve: Resolver, hasCallback: bool)
    returns (addresses: map<string, HostString>, events: seq<ResolveEvent>)
    ensures addresses == ResolvedMap(RegionInfix(region), resolve, NGROK_HOSTS)
    ensures events == if hasCallback then ResolveEvents(RegionInfix(region), resolve, NGROK_HOSTS) else []
  {
    var infix := RegionInfix(region);
    addresses := map[];
    events := [];
    for x := 0 to NGROK_HOSTS
      invariant addresses == ResolvedMap(infix, resolve, x)
      invariant events == if hasCallback then ResolveEvents(infix, resolve, x) else []
    {
      var host := [DigitChar(x)] + ".tcp" + infix + "ngrok.io";
      if hasCallback {
        events := events + [Resolving(host)];
      }
      var ip := resolve(host);
      if ip.Some? {
        if ip.value !in addresses.Values {
          addresses := addresses[host := ip.value];
        }
      }
      if hasCallback {
        events := events + [ResolvedHost(host, ip.Some?, ip)];
      }
    }
  }

  /** Every key is one of the first `k` host names and maps to the address it resolves to. */
  lemma {:induction false} ResolvedMapKeys(infix: string, resolve: Resolver, k: nat)
    requires k <= NGROK_HOSTS
    ensures ResolvedMap(infix, resolve, k).Keys <= set x | 0 <= x < k :: NgrokHost(x, infix)
    ensures forall host :: host in ResolvedMap(infix, resolve, k) ==>
      resolve(host) == Some(ResolvedMap(infix, resolve, k)[host])
  {
    if k > 0 {
      ResolvedMapKeys(infix, resolve, k - 1);
    }
  }

  /** The values are exactly the addresses the first `k` host names resolve to. */
  lemma {:induction false} ResolvedMapValues(infix: string, resolve: Resolver, k: nat, ip: HostString)
    requires k <= NGROK_HOSTS
    ensures ip in ResolvedMap(infix, resolve, k).Values <==>
      exists y :: 0 <= y < k && resolve(NgrokHost(y, infix)) == Some(ip)
  {
    if k > 0 {
      ResolvedMapValues(infix, resolve, k - 1, ip);
      var earlier := ResolvedMap(infix, resolve, k - 1);
      var host := NgrokHost(k - 1, infix);
      if resolve(host) == Some(ip) && ip !in earlier.Values {
        assert earlier[host := ip][host] == ip;
      }
      if ip in earlier.Values {
        var h :| h in earlier && earlier[h] == ip;
        var m := ResolvedMap(infix, resolve, k);
        assert h in m && m[h] == ip by {
          ResolvedMapKeys(infix, resolve, k - 1);
          if resolve(host).Some? && resolve(host).value !in earlier.Values {
            assert h != host;
          }
        }
      }
    }
  }

  /** No two host names in the map share an address. */
  lemma {:induction false} ResolvedMapInjective(infix: string, resolve: Resolver, k: nat)
    requires k <= NGROK_HOSTS
    ensures forall h1, h2 :: h1 in ResolvedMap(infix, resolve, k) && h2 in ResolvedMap(infix, resolve, k) && h1 != h2 ==>
      ResolvedMap(infix, resolve, k)[h1] != ResolvedMap(infix, resolve, k)[h2]
  {
    if k > 0 {
      ResolvedMapInjective(infix, resolve, k - 1);
    }
  }

  /**
   * Host name `x` is in the map exactly when it resolves and no earlier host name resolved to
   * the same address: the first name wins.
   */
  lemma ResolvedMapFirstWins(infix: string, resolve: Resolver, x: nat)
    requires x < NGROK_HOSTS
    ensures NgrokHost(x, infix) in ResolvedMap(infix, resolve, NGROK_HOSTS) <==>
      resolve(NgrokHost(x, infix)).Some? &&
      forall y :: 0 <= y < x ==> resolve(NgrokHost(y, infix)) != resolve(NgrokHost(x, infix))
  {
    ResolvedMapStep(infix, resolve, x + 1, x);
    ResolvedMapStable(infix, resolve, x + 1, NGROK_HOSTS, NgrokHost(x, infix));
  }

  /** The step that considers host name `x`. */
  lemma ResolvedMapStep(infix: string, resolve: Resolver, k: nat, x: nat)
    requires x + 1 == k <= NGROK_HOSTS
    ensures NgrokHost(x, infix) in ResolvedMap(infix, resolve, k) <==>
      resolve(NgrokHost(x, infix)).Some? &&
      forall y :: 0 <= y < x ==> resolve(NgrokHost(y, infix)) != resolve(NgrokHost(x, infix))
  {
    var host := NgrokHost(x, infix);
    ResolvedMapKeys(infix, resolve, x);
    if host in ResolvedMap(infix, resolve, x) {
      var y :| 0 <= y < x && host == NgrokHost(y, infix);
      NgrokHostsDistinct(x, y, infix);
    }
    if resolve(host).Some? {
      ResolvedMapValues(infix, resolve, x, resolve(host).value);
    }
  }

  /** Once a host name is considered its membership never changes. */
  lemma {:induction false} ResolvedMapStable(infix: string, resolve: Resolver, k: nat, k': nat, host: string)
    requires k <= k' <= NGROK_HOSTS
    requires forall y :: k <= y < NGROK_HOSTS ==> host != NgrokHost(y, infix)
    ensures host in ResolvedMap(infix, resolve, k) <==> host in ResolvedMap(infix, resolve, k')
  {
    if k < k' {
      ResolvedMapStable(infix, resolve, k, k' - 1, host);
    }
  }

  /** The callback hears `resolving` then `resolved` for each host name, in order. */
  lemma {:induction false} ResolveEventsAt(infix: string, resolve: Resolver, k: nat)
    requires k <= NGROK_HOSTS
    ensures |ResolveEvents(infix, resolve, k)| == 2 * k
    ensures forall x :: 0 <= x < k ==>
      ResolveEvents(infix, resolve, k)[2 * x] == Resolving(NgrokHost(x, infix)) &&
      ResolveEvents(infix, resolve, k)[2 * x + 1] ==
        ResolvedHost(NgrokHost(x, infix), resolve(NgrokHost(x, infix)).Some?, resolve(NgrokHost(x, infix)))
  {
    if k > 0 {
      ResolveEventsAt(infix, resolve, k - 1);
    }
  }

  // ---------------------------------------------------------------------------------------
  // scan
  // ---------------------------------------------------------------------------------------

  /** The probes the ladder can make on one endpoint. */
  datatype Probe = StatusProbe | LegacyProbe | JoinProbe

  /**
   * The probes made, in order, the response handed to `discovered`, if any, and whether the
   * ladder ended with an Error that no `catch (Exception e)` stops, which kills the worker.
   */
  datatype Outcome = Outcome(tried: seq<Probe>, found: Option<PingResponse>, fatal: bool)

  function ResultToOption(r: Result<PingResponse, ProbeError>): (o: Option<PingResponse>)
    ensures o.Some? <==> r.Success?
    ensures o.Some? ==> o.value == r.value
  {
    if r.Success? then Some(r.value) else None
  }

  /** The endpoint a pair names. */
  function EndpointOf(pair: HostPortPair): Endpoint {
    Endpoint(pair.host, pair.port)
  }

  /**
   * The ladder `scan` runs on one endpoint. `legacy > 1` forces the legacy ping alone;
   * otherwise the status ping (protocol 754), then the legacy ping when `legacy == 1`, then
   * the login probe when `join` is set, which reports the unlisted sentinel. A status payload
   * the heap cannot hold raises OutOfMemoryError, which skips every fallback.
   */
  function Ladder(endpoint: Endpoint, legacy: Int32, join: bool, timeout: Int32,
                  network: Network, parseJson: JsonParser, heap: Heap): (o: Outcome)
    ensures 1 <= |o.tried| <= 3
    ensures o.fatal ==> o.tried == [StatusProbe] && o.found == None
    ensures o.found.Some? && o.found.value.isLegacy ==> o.tried[|o.tried| - 1] == LegacyProbe
    ensures o.found.Some? && o.found.value.isUnlisted ==>
      o.found == Some(Unlisted()) && o.tried[|o.tried| - 1] == JoinProbe
  {
    if legacy > 1 then
      Outcome([LegacyProbe], ResultToOption(LegacyPingResult(endpoint, timeout, network)), false)
    else
      var status := PingResult(endpoint, SCAN_PROTOCOL, timeout, network, parseJson, heap);
      if status.Success? then Outcome([StatusProbe], Some(status.value), false)
      else if status == Failure(OutOfMemory) then Outcome([StatusProbe], None, true)
      else
        var fallback := if legacy == 1 then LegacyPingResult(endpoint, timeout, network) else status;
        var tried := if legacy == 1 then [StatusProbe, LegacyProbe] else [StatusProbe];
        if fallback.Success? then Outcome(tried, Some(fallback.value), false)
        else if !join then Outcome(tried, None, false)
        else if JoinResult(endpoint, timeout, network) then Outcome(tried + [JoinProbe], Some(Unlisted()), false)
        else Outcome(tried + [JoinProbe], None, false)
  }

  /**
   * One iteration of the worker's try block: the probes of the ladder, as calls. `fatal` is
   * the Error that leaves the try block uncaught.
   */
  method ProbeEndpoint(endpoint: Endpoint, legacy: Int32, join: bool, timeout: Int32,
                       network: Network, parseJson: JsonParser, heap: Heap)
    returns (found: Option<PingResponse>, fatal: bool)
    ensures found == Ladder(endpoint, legacy, join, timeout, network, parseJson, heap).found
    ensures fatal == Ladder(endpoint, legacy, join, timeout, network, parseJson, heap).fatal
  {
    fatal := false;
    if legacy > 1 {
      var data := LegacyPing(endpoint, timeout, network);
      return ResultToOption(data), false;
    }
    var data := Ping(endpoint, SCAN_PROTOCOL, timeout, network, parseJson, heap);
    if data == Failure(OutOfMemory) {
      return None, true;
    }
    if data.Failure? && legacy == 1 {
      data := LegacyPing(endpoint, timeout, network);
    }
    if data.Success? {
      return Some(data.value), false;
    }
    if !join {
      return None, false;
    }
    var joined := TryJoin(endpoint, timeout, network);
    found := if joined then Some(Unlisted()) else None;
  }

  /** Forced legacy mode makes one legacy ping and nothing else, whatever `join` says. */
  lemma LadderForcedLegacy(endpoint: Endpoint, legacy: Int32, join: bool, timeout: Int32,
                           network: Network, parseJson: JsonParser, heap: Heap)
    requires legacy > 1
    ensures Ladder(endpoint, legacy, join, timeout, network, parseJson, heap).tried == [LegacyProbe]
    ensures !Ladder(endpoint, legacy, join, timeout, network, parseJson, heap).fatal
    ensures Ladder(endpoint, legacy, join, timeout, network, parseJson, heap) ==
            Ladder(endpoint, legacy, !join, timeout, network, parseJson, heap)
  {
  }

  /**
   * Outside forced legacy mode the status ping always comes first, the legacy ping is made
   * only in fallback mode and only after the status ping failed with an exception, and the
   * login probe only when `join` is set and every ping failed with an exception. The ladder is
   * fatal exactly when the status ping ran out of memory, and then nothing else is tried.
   */
  lemma LadderOrder(endpoint: Endpoint, legacy: Int32, join: bool, timeout: Int32,
                    network: Network, parseJson: JsonParser, heap: Heap)
    requires legacy <= 1
    ensures var o := Ladder(endpoint, legacy, join, timeout, network, parseJson, heap);
      var status := PingResult(endpoint, SCAN_PROTOCOL, timeout, network, parseJson, heap);
      1 <= |o.tried| <= 3 && o.tried[0] == StatusProbe &&
      (o.fatal <==> status == Failure(OutOfMemory)) &&
      (o.fatal ==> o.tried == [StatusProbe] && o.found == None) &&
      (LegacyProbe in o.tried <==> legacy == 1 && status.Failure? && !o.fatal) &&
      (JoinProbe in o.tried <==>
        join && status.Failure? && !o.fatal &&
        (legacy == 1 ==> LegacyPingResult(endpoint, timeout, network).Failure?)) &&
      (JoinProbe in o.tried ==> o.tried[|o.tried| - 1] == JoinProbe)
  {
  }

  /**
   * Where a discovered response comes from: a legacy response only from a legacy ping, the
   * unlisted sentinel only from an accepted login probe, anything else from the status ping.
   */
  lemma LadderFoundSource(endpoint: Endpoint, legacy: Int32, join: bool, timeout: Int32,
                          network: Network, parseJson: JsonParser, heap: Heap)
    ensures var o := Ladder(endpoint, legacy, join, timeout, network, parseJson, heap);
      o.found.Some? ==> (
        !(o.found.value.isLegacy && o.found.value.isUnlisted) &&
        (o.found.value.isLegacy <==> LegacyProbe in o.tried && o.tried[|o.tried| - 1] == LegacyProbe) &&
        (o.found.value.isUnlisted <==> o.found.value == Unlisted() && JoinProbe in o.tried) &&
        (o.found.value.isUnlisted ==> join && legacy <= 1 && JoinResult(endpoint, timeout, network)) &&
        (!o.found.value.isLegacy && !o.found.value.isUnlisted ==>
          o.tried == [StatusProbe] && o.found.value.protocol == SCAN_PROTOCOL))
  {
  }

  /**
   * What the ladder reports: forced legacy mode reports the legacy ping's response; otherwise a
   * successful status ping is reported, then a successful legacy fallback, and a login probe
   * reports the unlisted sentinel exactly when it is accepted.
   */
  lemma LadderReports(endpoint: Endpoint, legacy: Int32, join: bool, timeout: Int32,
                      network: Network, parseJson: JsonParser, heap: Heap)
    ensures var o := Ladder(endpoint, legacy, join, timeout, network, parseJson, heap);
      var status := PingResult(endpoint, SCAN_PROTOCOL, timeout, network, parseJson, heap);
      var fallback := LegacyPingResult(endpoint, timeout, network);
      (legacy > 1 ==> o.found == ResultToOption(fallback)) &&
      (legacy <= 1 && status.Success? ==> o.found == Some(status.value)) &&
      (legacy == 1 && status.Failure? && !o.fatal && fallback.Success? ==> o.found == Some(fallback.value)) &&
      (JoinProbe in o.tried ==> (o.found == Some(Unlisted()) <==> JoinResult(endpoint, timeout, network)))
  {
  }

  /** A negative timeout makes every probe fail: nothing is discovered. */
  lemma LadderNegativeTimeout(endpoint: Endpoint, legacy: Int32, join: bool, timeout: Int32,
                              network: Network, parseJson: JsonParser, heap: Heap)
    requires timeout < 0
    ensures Ladder(endpoint, legacy, join, timeout, network, parseJson, heap).found == None
  {
  }

  /** What the scanner callback hears: `discovered(data, host, port)` and `scanned(host, port)`. */
  datatype Event =
    | Discovered(data: PingResponse, host: HostString, port: NgrokPort)
    | Scanned(host: HostString, port: NgrokPort)

  /** The callbacks for one pair: `discovered` when something was found, then `scanned`. */
  function Report(pair: HostPortPair, found: Option<PingResponse>): seq<Event> {
    (if found.Some? then [Discovered(found.value, pair.host, pair.port)] else []) + [Scanned(pair.host, pair.port)]
  }

  /** The events for one pair, with what the ladder found on its endpoint. */
  function PairEvents(pair: HostPortPair, legacy: Int32, join: bool, timeout: Int32,
                      network: Network, parseJson: JsonParser, heap: Heap): seq<Event>
  {
    Report(pair, Ladder(EndpointOf(pair), legacy, join, timeout, network, parseJson, heap).found)
  }

  /** Whether the ladder on the pair's endpoint ends with an Error that kills its worker. */
  predicate Fatal(pair: HostPortPair, legacy: Int32, join: bool, timeout: Int32,
                  network: Network, parseJson: JsonParser, heap: Heap)
  {
    Ladder(EndpointOf(pair), legacy, join, timeout, network, parseJson, heap).fatal
  }

  /** The length of the longest prefix of `s` holding no element `stop` is true of. */
  function PrefixBefore<T>(s: seq<T>, stop: T -> bool): (n: nat)
    ensures n <= |s|
    ensures forall i :: 0 <= i < n ==> !stop(s[i])
    ensures n < |s| ==> stop(s[n])
  {
    if s == [] then 0
    else
      var n := PrefixBefore(s[..|s| - 1], stop);
      if n == |s| - 1 && !stop(s[|s| - 1]) then |s| else n
  }

  /**
   * How many pairs of its chunk a worker gets through: the pairs before the first fatal one,
   * or the whole chunk when none is fatal.
   */
  function Completed(pairs: seq<HostPortPair>, legacy: Int32, join: bool, timeout: Int32,
                     network: Network, parseJson: JsonParser, heap: Heap): (n: nat)
    ensures n <= |pairs|
    ensures forall i :: 0 <= i < n ==> !Fatal(pairs[i], legacy, join, timeout, network, parseJson, heap)
    ensures n < |pairs| ==> Fatal(pairs[n], legacy, join, timeout, network, parseJson, heap)
  {
    PrefixBefore(pairs, pair => Fatal(pair, legacy, join, timeout, network, parseJson, heap))
  }

  /** The events for pairs the worker finishes, pair after pair. */
  function ReportAll(pairs: seq<HostPortPair>, legacy: Int32, join: bool, timeout: Int32,
                     network: Network, parseJson: JsonParser, heap: Heap): seq<Event>
  {
    if pairs == [] then []
    else
      ReportAll(pairs[..|pairs| - 1], legacy, join, timeout, network, parseJson, heap) +
      PairEvents(pairs[|pairs| - 1], legacy, join, timeout, network, parseJson, heap)
  }

  /**
   * The events one worker thread produces for its chunk: the reports of the pairs it
   * completes. A fatal pair gets neither `discovered` nor `scanned`, and the thread dies
   * with the rest of its chunk.
   */
  function WorkerEvents(pairs: seq<HostPortPair>, legacy: Int32, join: bool, timeout: Int32,
                        network: Network, parseJson: JsonParser, heap: Heap): seq<Event>
  {
    ReportAll(pairs[..Completed(pairs, legacy, join, timeout, network, parseJson, heap)],
              legacy, join, timeout, network, parseJson, heap)
  }

  /**
   * The body of one worker thread: every Exception of a probe is swallowed and `scanned`
   * follows; an Error leaves the loop and ends the thread.
   */
  method RunWorker(pairs: seq<HostPortPair>, legacy: Int32, join: bool, timeout: Int32,
                   network: Network, parseJson: JsonParser, heap: Heap) returns (events: seq<Event>)
    ensures events == WorkerEvents(pairs, legacy, join, timeout, network, parseJson, heap)
  {
    events := [];
    for i := 0 to |pairs|
      invariant events == ReportAll(pairs[..i], legacy, join, timeout, network, parseJson, heap)
      invariant Completed(pairs[..i], legacy, join, timeout, network, parseJson, heap) == i
    {
      var pair := pairs[i];
      var found, fatal := ProbeEndpoint(EndpointOf(pair), legacy, join, timeout, network, parseJson, heap);
      CompletedStep(pairs, i, legacy, join, timeout, network, parseJson, heap);
      if fatal {
        return;
      }
      ReportAllStep(pairs, i, legacy, join, timeout, network, parseJson, heap);
      ghost var before := events;
      if found.Some? {
        events := events + [Discovered(found.value, pair.host, pair.port)];
      }
      events := events + [Scanned(pair.host, pair.port)];
      assert events == before + Report(pair, found);
    }
    assert pairs[..|pairs|] == pairs;
  }

  /** Finishing pair `i` appends that pair's report to the trace. */
  lemma ReportAllStep(pairs: seq<HostPortPair>, i: nat, legacy: Int32, join: bool, timeout: Int32,
                      network: Network, parseJson: JsonParser, heap: Heap)
    requires i < |pairs|
    ensures ReportAll(pairs[..i + 1], legacy, join, timeout, network, parseJson, heap) ==
      ReportAll(pairs[..i], legacy, join, timeout, network, parseJson, heap) +
      Report(pairs[i], Ladder(EndpointOf(pairs[i]), legacy, join, timeout, network, parseJson, heap).found)
  {
    assert pairs[..i + 1][..i] == pairs[..i];
  }

  /** A worker that completed the first `i` pairs stops at pair `i` when it is fatal. */
  lemma CompletedStep(pairs: seq<HostPortPair>, i: nat, legacy: Int32, join: bool, timeout: Int32,
                      network: Network, parseJson: JsonParser, heap: Heap)
    requires i < |pairs| && Completed(pairs[..i], legacy, join, timeout, network, parseJson, heap) == i
    ensures Fatal(pairs[i], legacy, join, timeout, network, parseJson, heap) ==>
      Completed(pairs, legacy, join, timeout, network, parseJson, heap) == i
    ensures !Fatal(pairs[i], legacy, join, timeout, network, parseJson, heap) ==>
      Completed(pairs[..i + 1], legacy, join, timeout, network, parseJson, heap) == i + 1
  {
    assert forall j :: 0 <= j < i ==> pairs[..i][j] == pairs[j] == pairs[..i + 1][j];
    assert pairs[..i + 1][i] == pairs[i];
  }

  /**
   * scan(list, callback, legacy, join, timeout): one worker per chunk. The threads run
   * concurrently; each trace here is the order one worker's callbacks fire in.
   */
  method Scan(list: seq<seq<HostPortPair>>, legacy: Int32, join: bool, timeout: Int32,
              network: Network, parseJson: JsonParser, heap: Heap) returns (traces: seq<seq<Event>>)
    ensures |traces| == |list|
    ensures forall i :: 0 <= i < |list| ==> traces[i] == WorkerEvents(list[i], legacy, join, timeout, network, parseJson, heap)
  {
    traces := [];
    for i := 0 to |list|
      invariant |traces| == i
      invariant forall j :: 0 <= j < i ==> traces[j] == WorkerEvents(list[j], legacy, join, timeout, network, parseJson, heap)
    {
      var events := RunWorker(list[i], legacy, join, timeout, network, parseJson, heap);
      traces := traces + [events];
    }
  }

  /** The pairs of the `scanned` events, in order. */
  function ScannedPairs(events: seq<Event>): seq<HostPortPair> {
    if events == [] then []
    else
      var last := events[|events| - 1];
      ScannedPairs(events[..|events| - 1]) + if last.Scanned? then [HostPortPair(last.host, last.port)] else []
  }

  lemma {:induction false} ScannedPairsAppend(a: seq<Event>, b: seq<Event>)
    ensures ScannedPairs(a + b) == ScannedPairs(a) + ScannedPairs(b)
  {
    if b == [] {
      assert a + b == a;
    } else {
      var front := b[..|b| - 1];
      assert (a + b)[..|a + b| - 1] == a + front;
      assert (a + b)[|a + b| - 1] == b[|b| - 1];
      ScannedPairsAppend(a, front);
    }
  }

  lemma FrontLast<T>(s: seq<T>)
    requires s != []
    ensures s[..|s| - 1] + [s[|s| - 1]] == s
  {
  }

  lemma ReportScansOnce(pair: HostPortPair, found: Option<PingResponse>)
    ensures ScannedPairs(Report(pair, found)) == [pair]
  {
    var events := Report(pair, found);
    if found.Some? {
      var discovered := Discovered(found.value, pair.host, pair.port);
      assert events == [discovered, Scanned(pair.host, pair.port)];
      assert events[..1] == [discovered];
      assert [discovered][..0] == [];
      assert ScannedPairs([discovered]) == [];
    } else {
      assert events[..0] == [];
    }
  }

  lemma {:induction false} ReportAllScans(pairs: seq<HostPortPair>, legacy: Int32, join: bool, timeout: Int32,
                                          network: Network, parseJson: JsonParser, heap: Heap)
    ensures ScannedPairs(ReportAll(pairs, legacy, join, timeout, network, parseJson, heap)) == pairs
  {
    if pairs != [] {
      var front := pairs[..|pairs| - 1];
      var pair := pairs[|pairs| - 1];
      ReportAllScans(front, legacy, join, timeout, network, parseJson, heap);
      var found := Ladder(EndpointOf(pair), legacy, join, timeout, network, parseJson, heap).found;
      ScannedPairsAppend(ReportAll(front, legacy, join, timeout, network, parseJson, heap), Report(pair, found));
      ReportScansOnce(pair, found);
      FrontLast(pairs);
    }
  }

  /**
   * The pairs a worker reports scanned are those it completes, each exactly once and in
   * chunk order; with no fatal pair that is the whole chunk.
   */
  lemma WorkerScansInOrder(pairs: seq<HostPortPair>, legacy: Int32, join: bool, timeout: Int32,
                           network: Network, parseJson: JsonParser, heap: Heap)
    ensures ScannedPairs(WorkerEvents(pairs, legacy, join, timeout, network, parseJson, heap)) ==
            pairs[..Completed(pairs, legacy, join, timeout, network, parseJson, heap)]
    ensures (forall p :: p in pairs ==> !Fatal(p, legacy, join, timeout, network, parseJson, heap)) ==>
            ScannedPairs(WorkerEvents(pairs, legacy, join, timeout, network, parseJson, heap)) == pairs
  {
    var n := Completed(pairs, legacy, join, timeout, network, parseJson, heap);
    ReportAllScans(pairs[..n], legacy, join, timeout, network, parseJson, heap);
    if n < |pairs| {
      assert pairs[n] in pairs;
    } else {
      assert pairs[..n] == pairs;
    }
  }

  /** Every event of a pair's report appears in the reports of a sequence holding that pair. */
  lemma {:induction false} ReportAllHas(pairs: seq<HostPortPair>, i: nat, legacy: Int32, join: bool, timeout: Int32,
                                        network: Network, parseJson: JsonParser, heap: Heap)
    requires i < |pairs|
    ensures forall e :: e in PairEvents(pairs[i], legacy, join, timeout, network, parseJson, heap) ==>
      e in ReportAll(pairs, legacy, join, timeout, network, parseJson, heap)
  {
    var front := pairs[..|pairs| - 1];
    if i < |pairs| - 1 {
      ReportAllHas(front, i, legacy, join, timeout, network, parseJson, heap);
      assert front[i] == pairs[i];
    }
  }

  /**
   * Every pair a worker completes is reported: `scanned` always, and `discovered` with what
   * the ladder found whenever it found something.
   */
  lemma WorkerReportsFound(pairs: seq<HostPortPair>, i: nat, legacy: Int32, join: bool, timeout: Int32,
                           network: Network, parseJson: JsonParser, heap: Heap)
    requires i < Completed(pairs, legacy, join, timeout, network, parseJson, heap)
    ensures var events := WorkerEvents(pairs, legacy, join, timeout, network, parseJson, heap);
      var found := Ladder(EndpointOf(pairs[i]), legacy, join, timeout, network, parseJson, heap).found;
      Scanned(pairs[i].host, pairs[i].port) in events &&
      (found.Some? ==> Discovered(found.value, pairs[i].host, pairs[i].port) in events)
  {
    var n := Completed(pairs, legacy, join, timeout, network, parseJson, heap);
    ReportAllHas(pairs[..n], i, legacy, join, timeout, network, parseJson, heap);
    assert pairs[..n][i] == pairs[i];
  }

  lemma {:induction false} ReportAllShape(pairs: seq<HostPortPair>, legacy: Int32, join: bool, timeout: Int32,
                                          network: Network, parseJson: JsonParser, heap: Heap)
    ensures var events := ReportAll(pairs, legacy, join, timeout, network, parseJson, heap);
      |pairs| <= |events| <= 2 * |pairs| &&
      (pairs != [] ==> events[|events| - 1].Scanned?) &&
      forall k :: 0 <= k < |events| && events[k].Discovered? ==>
        k + 1 < |events| && events[k + 1] == Scanned(events[k].host, events[k].port) &&
        Ladder(Endpoint(events[k].host, events[k].port), legacy, join, timeout, network, parseJson, heap).found ==
          Some(events[k].data)
  {
    if pairs != [] {
      ReportAllShape(pairs[..|pairs| - 1], legacy, join, timeout, network, parseJson, heap);
    }
  }

  /**
   * Each completed pair yields one or two events; a `discovered` event carries what the ladder
   * found for that endpoint and is immediately followed by the `scanned` event of the same
   * pair, and a trace that completed any pair ends with a `scanned` event.
   */
  lemma WorkerEventShape(pairs: seq<HostPortPair>, legacy: Int32, join: bool, timeout: Int32,
                         network: Network, parseJson: JsonParser, heap: Heap)
    ensures var n := Completed(pairs, legacy, join, timeout, network, parseJson, heap);
      var events := WorkerEvents(pairs, legacy, join, timeout, network, parseJson, heap);
      n <= |events| <= 2 * n &&
      (n > 0 ==> events[|events| - 1].Scanned?) &&
      forall k :: 0 <= k < |events| && events[k].Discovered? ==>
        k + 1 < |events| && events[k + 1] == Scanned(events[k].host, events[k].port) &&
        Ladder(Endpoint(events[k].host, events[k].port), legacy, join, timeout, network, parseJson, heap).found ==
          Some(events[k].data)
  {
    var n := Completed(pairs, legacy, join, timeout, network, parseJson, heap);
    ReportAllShape(pairs[..n], legacy, join, timeout, network, parseJson, heap);
  }

  /**
   * Scanning the chunks `split` makes of a list reports, chunk after chunk, the pairs each
   * worker completes; when no pair is fatal that is every element of the list exactly once.
   */
  lemma ScanCoversSplit(targets: seq<HostPortPair>, threads: nat, traces: seq<seq<Event>>, legacy: Int32,
                        join: bool, timeout: Int32, network: Network, parseJson: JsonParser, heap: Heap)
    requires threads > 0
    requires |traces| == |SplitOf(targets, threads)|
    requires forall i :: 0 <= i < |traces| ==>
      traces[i] == WorkerEvents(SplitOf(targets, threads)[i], legacy, join, timeout, network, parseJson, heap)
    ensures forall i :: 0 <= i < |traces| ==>
      ScannedPairs(traces[i]) ==
        SplitOf(targets, threads)[i][..Completed(SplitOf(targets, threads)[i], legacy, join, timeout, network, parseJson, heap)]
    ensures (forall p :: p in targets ==> !Fatal(p, legacy, join, timeout, network, parseJson, heap)) ==>
      Flatten(seq(|traces|, i requires 0 <= i < |traces| => ScannedPairs(traces[i]))) == targets
  {
    var chunks := SplitOf(targets, threads);
    forall i | 0 <= i < |traces|
      ensures ScannedPairs(traces[i]) == chunks[i][..Completed(chunks[i], legacy, join, timeout, network, parseJson, heap)]
    {
      WorkerScansInOrder(chunks[i], legacy, join, timeout, network, parseJson, heap);
    }
    if forall p :: p in targets ==> !Fatal(p, legacy, join, timeout, network, parseJson, heap) {
      var scanned := seq(|traces|, i requires 0 <= i < |traces| => ScannedPairs(traces[i]));
      forall i | 0 <= i < |traces|
        ensures scanned[i] == chunks[i]
      {
        SplitOfAt(targets, threads, i);
        forall p | p in chunks[i]
          ensures !Fatal(p, legacy, join, timeout, network, parseJson, heap)
        {
          assert p in targets;
        }
        WorkerScansInOrder(chunks[i], legacy, join, timeout, network, parseJson, heap);
      }
      assert scanned == chunks;
      SplitFlattens(targets, threads);
    }
  }
}
