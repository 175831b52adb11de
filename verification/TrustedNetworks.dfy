/**
 * CIDR networks: masks, membership and parsing.
 *
 * Addresses are the unsigned numbers the masks apply to. `And` and `ShiftLeft` are the bitwise
 * operations of fixed-width unsigned integers, so one proof covers both address families.
 */
module TrustedNetworks {
  import opened Prelude
  import opened Addresses

  function Pow2(n: nat): (p: nat)
    ensures p > 0
  {
    if n == 0 then 1 else 2 * Pow2(n - 1)
  }

  /** Bitwise and. */
  function And(x: nat, y: nat): nat {
    if x == 0 || y == 0 then 0 else 2 * And(x / 2, y / 2) + (x % 2) * (y % 2)
  }

  /** Shift left within `width` bits. */
  function ShiftLeft(x: nat, places: nat, width: nat): nat {
    (x * Pow2(places)) % Pow2(width)
  }

  function Mask(width: nat, prefix: nat): nat
    requires prefix <= width
  {
    if prefix == 0 then 0 else ShiftLeft(Pow2(width) - 1, width - prefix, width)
  }

  datatype Ip = V4(bits: nat) | V6(bits: nat)

  function Width(ip: Ip): nat {
    if ip.V4? then 32 else 128
  }

  predicate InRange(ip: Ip) {
    ip.bits < Pow2(Width(ip))
  }

  datatype Network = Network(base: Ip, prefix: nat)

  predicate Contains(network: Network, address: Ip)
    requires network.prefix <= Width(network.base)
  {
    match (network.base, address)
    case (V4(n), V4(a)) => And(n, Mask(32, network.prefix)) == And(a, Mask(32, network.prefix))
    case (V6(n), V6(a)) => And(n, Mask(128, network.prefix)) == And(a, Mask(128, network.prefix))
    case _ => false
  }

  datatype NetworkError = NotCidr | InvalidAddress | InvalidPrefix | NotCanonical

  /** The index of the first slash, or the length. */
  function SlashAt(s: string): (i: nat)
    ensures i <= |s|
    ensures i < |s| ==> s[i] == '/'
    ensures forall k :: 0 <= k < i ==> s[k] != '/'
  {
    if s == [] || s[0] == '/' then 0 else 1 + SlashAt(s[1..])
  }

  /** Parse `address/prefix`; recognizing the address is a parameter. */
  function Parse(parseIp: string -> Option<Ip>, value: string): Result<Network, NetworkError> {
    var i := SlashAt(value);
    if i == |value| then Err(NotCidr)
    else
      match parseIp(value[..i])
      case None => Err(InvalidAddress)
      case Some(ip) =>
        match ParseUnsigned(value[i + 1..], 255)
        case None => Err(InvalidPrefix)
        case Some(prefix) =>
          if prefix > Width(ip) then Err(InvalidPrefix)
          else if And(ip.bits, Mask(Width(ip), prefix)) != ip.bits then Err(NotCanonical)
          else Ok(Network(ip, prefix))
  }

  /** What parsing guarantees about the networks it accepts. */
  predicate Accepted(network: Network) {
    && InRange(network.base)
    && network.prefix <= Width(network.base)
    && And(network.base.bits, Mask(Width(network.base), network.prefix)) == network.base.bits
  }

  // ---------------------------------------------------------------------------------------------
  // Masks keep the high bits
  // ---------------------------------------------------------------------------------------------

  lemma {:induction false} Pow2Sum(a: nat, b: nat)
    ensures Pow2(a + b) == Pow2(a) * Pow2(b)
  {
    if a > 0 {
      Pow2Sum(a - 1, b);
      assert Pow2(a + b) == 2 * Pow2(a - 1 + b);
      assert 2 * (Pow2(a - 1) * Pow2(b)) == (2 * Pow2(a - 1)) * Pow2(b);
    }
  }

  /** A mask of `prefix` ones followed by zeros, also for prefix 0. */
  lemma MaskValue(width: nat, prefix: nat)
    requires prefix <= width
    ensures Pow2(width - prefix) <= Pow2(width)
    ensures Mask(width, prefix) == Pow2(width) - Pow2(width - prefix)
  {
    Pow2Sum(prefix, width - prefix);
    Below(Pow2(width - prefix), Pow2(prefix));
    ShiftedOnes(Pow2(width), Pow2(width - prefix));
  }

  lemma ShiftedOnes(w: nat, k: nat)
    requires 0 < k <= w
    ensures ((w - 1) * k) % w == w - k
  {
    assert (w - 1) * k == w * (k - 1) + (w - k);
    ModOf(w, k - 1, w - k);
  }

  lemma Below(k: nat, m: nat)
    requires m > 0
    ensures k <= m * k
  {
  }

  lemma {:induction false} ModOf(w: nat, q: nat, r: nat)
    requires r < w
    ensures (w * q + r) % w == r
  {
    if q > 0 {
      ModOf(w, q - 1, r);
      assert w * q + r == (w * (q - 1) + r) + w;
      AddModulus(w * (q - 1) + r, w);
    }
  }

  lemma AddModulus(x: nat, w: nat)
    requires w > 0
    ensures (x + w) % w == x % w
  {
    var q := x / w;
    assert x + w == (q + 1) * w + x % w;
    DivModUnique(x + w, w, q + 1, x % w);
  }

  lemma DivModUnique(x: nat, w: nat, q: nat, r: nat)
    requires w > 0 && r < w && x == q * w + r
    ensures x / w == q && x % w == r
  {
    var q', r' := x / w, x % w;
    assert x == q' * w + r';
    assert (q - q') * w == r' - r && (q' - q) * w == r - r';
    assert q - q' >= 1 ==> (q - q') * w >= w;
    assert q' - q >= 1 ==> (q' - q) * w >= w;
  }

  /** And with all ones is the identity. */
  lemma {:induction false} AndOnes(x: nat, width: nat)
    requires x < Pow2(width)
    ensures And(x, Pow2(width) - 1) == x
  {
    if width > 0 && x > 0 {
      AndOnes(x / 2, width - 1);
      assert (Pow2(width) - 1) / 2 == Pow2(width - 1) - 1 && (Pow2(width) - 1) % 2 == 1;
    }
  }

  /** And with a mask of high ones clears the low `low` bits. */
  lemma {:induction false} AndHigh(x: nat, width: nat, low: nat)
    requires x < Pow2(width) && low <= width
    ensures Pow2(low) <= Pow2(width)
    ensures And(x, Pow2(width) - Pow2(low)) == x - x % Pow2(low)
    decreases low
  {
    Pow2Sum(width - low, low);
    Below(Pow2(low), Pow2(width - low));
    if low == 0 {
      AndOnes(x, width);
    } else {
      AndHigh(x / 2, width - 1, low - 1);
      var k := Pow2(low - 1);
      HalfMod(x, k);
      var mask := Pow2(width) - Pow2(low);
      assert mask == 2 * (Pow2(width - 1) - k);
      assert mask / 2 == Pow2(width - 1) - k && mask % 2 == 0;
    }
  }

  lemma HalfMod(x: nat, k: nat)
    requires k > 0
    ensures x % (2 * k) == 2 * ((x / 2) % k) + x % 2
  {
    var q, r := (x / 2) / k, (x / 2) % k;
    assert x / 2 == q * k + r;
    assert x == q * (2 * k) + (2 * r + x % 2);
    DivModUnique(x, 2 * k, q, 2 * r + x % 2);
  }

  /** Masking is rounding down to a multiple of the block size. */
  lemma MaskingRounds(x: nat, width: nat, prefix: nat)
    requires x < Pow2(width) && prefix <= width
    ensures And(x, Mask(width, prefix)) == x - x % Pow2(width - prefix)
  {
    MaskValue(width, prefix);
    AndHigh(x, width, width - prefix);
  }

  // ---------------------------------------------------------------------------------------------
  // Results
  // ---------------------------------------------------------------------------------------------

  /** The number of addresses in a network. */
  function Block(network: Network): nat
    requires network.prefix <= Width(network.base)
  {
    Pow2(Width(network.base) - network.prefix)
  }

  /** The parts denote the network: the prefix fits the family, and the address is a multiple of the block size. */
  ghost predicate Denotes(parseIp: string -> Option<Ip>, address: string, digits: string, network: Network) {
    && parseIp(address) == Some(network.base) && ParseUnsigned(digits, 255) == Some(network.prefix)
    && (if network.base.V4? then network.prefix <= 32 && network.base.bits % Pow2(32 - network.prefix) == 0
        else network.prefix <= 128 && network.base.bits % Pow2(128 - network.prefix) == 0)
  }

  /** The text reads `address/prefix` and its parts denote the network. */
  ghost predicate Describes(parseIp: string -> Option<Ip>, value: string, network: Network) {
    exists address: string, digits: string ::
      Denotes(parseIp, address, digits, network) && '/' !in address && value == address + "/" + digits
  }

  /** What follows the search for the slash. */
  lemma PartsParse(parseIp: string -> Option<Ip>, value: string, i: nat, network: Network)
    requires forall s :: parseIp(s).Some? ==> InRange(parseIp(s).value)
    requires i == SlashAt(value) < |value|
    ensures Parse(parseIp, value) == Ok(network) <==> Denotes(parseIp, value[..i], value[i + 1..], network)
  {
    hide And, Mask, ParseUnsigned, Pow2, SlashAt;
    if parseIp(value[..i]) == Some(network.base) && network.prefix <= Width(network.base) {
      MaskingRounds(network.base.bits, Width(network.base), network.prefix);
    }
  }

  lemma DescribedParses(parseIp: string -> Option<Ip>, address: string, digits: string, network: Network)
    requires forall s :: parseIp(s).Some? ==> InRange(parseIp(s).value)
    requires Denotes(parseIp, address, digits, network) && '/' !in address
    ensures Parse(parseIp, address + "/" + digits) == Ok(network)
  {
    hide Parse, Denotes;
    var value := address + "/" + digits;
    SlashFound(address, digits);
    assert value[..|address|] == address && value[|address| + 1..] == digits;
    PartsParse(parseIp, value, |address|, network);
  }

  lemma ParsedDescribes(parseIp: string -> Option<Ip>, value: string, network: Network)
    requires forall s :: parseIp(s).Some? ==> InRange(parseIp(s).value)
    requires Parse(parseIp, value) == Ok(network)
    ensures Describes(parseIp, value, network)
  {
    var i := SlashAt(value);
    assert i < |value|;
    CutsAtSlash(value, i);
    PartsParse(parseIp, value, i, network);
    hide Parse, Denotes, SlashAt;
    var address, digits := value[..i], value[i + 1..];
    assert Denotes(parseIp, address, digits, network) && '/' !in address && value == address + "/" + digits;
  }

  lemma CutsAtSlash(value: string, i: nat)
    requires i == SlashAt(value) < |value|
    ensures '/' !in value[..i] && value == value[..i] + "/" + value[i + 1..]
  {
    assert value[i] == '/' && forall k :: 0 <= k < i ==> value[k] != '/';
    hide SlashAt;
    var address := value[..i];
    assert forall k :: 0 <= k < |address| ==> address[k] != '/';
    assert value == address + [value[i]] + value[i + 1..];
  }

  /** A text parses to a network exactly when it describes it, without any mask. */
  lemma ParsesExactly(parseIp: string -> Option<Ip>, value: string, network: Network)
    requires forall s :: parseIp(s).Some? ==> InRange(parseIp(s).value)
    ensures Parse(parseIp, value) == Ok(network) <==> Describes(parseIp, value, network)
  {
    hide Parse, Denotes;
    if Parse(parseIp, value) == Ok(network) { ParsedDescribes(parseIp, value, network); }
    if address: string, digits: string :|
      Denotes(parseIp, address, digits, network) && '/' !in address && value == address + "/" + digits
    {
      DescribedParses(parseIp, address, digits, network);
    }
  }

  /** How a text is refused: no slash, then the address, then the prefix, then the host bits. */
  lemma RefusedExactly(parseIp: string -> Option<Ip>, value: string)
    requires forall s :: parseIp(s).Some? ==> InRange(parseIp(s).value)
    ensures Parse(parseIp, value) == Err(NotCidr) <==> '/' !in value
    ensures forall address: string, digits: string :: '/' !in address && value == address + "/" + digits ==>
      && (Parse(parseIp, value) == Err(InvalidAddress) <==> parseIp(address).None?)
      && (Parse(parseIp, value) == Err(InvalidPrefix) <==>
            && parseIp(address).Some?
            && (ParseUnsigned(digits, 255).None? || ParseUnsigned(digits, 255).value > if parseIp(address).value.V4? then 32 else 128))
  {
    hide And, Mask, ParseUnsigned, Pow2;
    var i := SlashAt(value);
    assert i == |value| <==> '/' !in value;
    forall address: string, digits: string | '/' !in address && value == address + "/" + digits
      ensures i == |address| && value[..i] == address && value[i + 1..] == digits
    {
      SlashFound(address, digits);
    }
  }

  lemma SlashFound(address: string, digits: string)
    requires '/' !in address
    ensures SlashAt(address + "/" + digits) == |address|
  {
    var value := address + "/" + digits;
    assert value[|address|] == '/';
    assert forall k :: 0 <= k < |address| ==> value[k] == address[k];
  }

  lemma ParsedIsAccepted(parseIp: string -> Option<Ip>, value: string)
    requires forall s :: parseIp(s).Some? ==> InRange(parseIp(s).value)
    requires Parse(parseIp, value).Ok?
    ensures Accepted(Parse(parseIp, value).value)
  {
  }

  /**
   * For every accepted network, membership by mask is membership in the interval of addresses
   * from its base, of either family and for every prefix including 0.
   */
  lemma MembershipIsInterval(network: Network, address: Ip)
    requires Accepted(network) && InRange(address)
    ensures Contains(network, address)
       <==> (network.base.V4? <==> address.V4?) && network.base.bits <= address.bits < network.base.bits + Pow2((if network.base.V4? then 32 else 128) - network.prefix)
  {
    if network.base.V4? <==> address.V4? {
      var width, k := Width(network.base), Block(network);
      MaskingRounds(network.base.bits, width, network.prefix);
      MaskingRounds(address.bits, width, network.prefix);
      RoundsDownTo(network.base.bits, address.bits, k);
    }
  }

  /** `n` is the multiple of `k` just at or below `a` exactly when `a` lies in the block at `n`. */
  lemma RoundsDownTo(n: nat, a: nat, k: nat)
    requires k > 0 && n % k == 0
    ensures n == a - a % k <==> n <= a < n + k
  {
    if n <= a < n + k {
      assert a == (n / k) * k + (a - n);
      DivModUnique(a, k, n / k, a - n);
    }
  }

  ghost predicate Inside(inner: Network, outer: Network)
    requires Accepted(inner) && Accepted(outer)
  {
    forall a: Ip :: InRange(a) && Contains(inner, a) ==> Contains(outer, a)
  }

  ghost predicate Apart(m: Network, n: Network)
    requires Accepted(m) && Accepted(n)
  {
    forall a: Ip :: InRange(a) ==> !(Contains(m, a) && Contains(n, a))
  }

  /** Any two accepted networks are nested or disjoint. */
  lemma NestedOrDisjoint(m: Network, n: Network)
    requires Accepted(m) && Accepted(n)
    ensures Inside(m, n) || Inside(n, m) || Apart(m, n)
  {
    if (m.base.V4? <==> n.base.V4?) && m.prefix <= n.prefix {
      NestedByPrefix(m, n);
    } else if m.base.V4? <==> n.base.V4? {
      NestedByPrefix(n, m);
    } else {
      forall a: Ip | InRange(a) ensures !(Contains(m, a) && Contains(n, a)) { }
    }
  }

  /** A base is a multiple of its block size. */
  lemma BaseIsAligned(network: Network)
    requires Accepted(network)
    ensures network.base.bits % Block(network) == 0
  {
    MaskingRounds(network.base.bits, Width(network.base), network.prefix);
  }

  /** If a network shares an address with one of shorter prefix, its interval is inside. */
  lemma SharedAddressNests(m: Network, n: Network, x: Ip)
    requires Accepted(m) && Accepted(n) && InRange(x)
    requires (m.base.V4? <==> n.base.V4?) && m.prefix <= n.prefix
    requires Contains(m, x) && Contains(n, x)
    ensures m.base.bits <= n.base.bits && n.base.bits + Block(n) <= m.base.bits + Block(m)
  {
    hide Contains;
    hide And;
    hide Mask;
    MembershipIsInterval(m, x);
    MembershipIsInterval(n, x);
    BaseIsAligned(m);
    BaseIsAligned(n);
    Pow2Sum(n.prefix - m.prefix, Width(n.base) - n.prefix);
    BlocksNest(m.base.bits, n.base.bits, Pow2(n.prefix - m.prefix), Block(n), x.bits);
  }

  /** The network with the longer prefix is inside the other or apart from it. */
  lemma NestedByPrefix(m: Network, n: Network)
    requires Accepted(m) && Accepted(n)
    requires (m.base.V4? <==> n.base.V4?) && m.prefix <= n.prefix
    ensures Inside(n, m) || Apart(m, n)
  {
    hide Contains;
    hide Pow2;
    if !Apart(m, n) {
      var x: Ip :| InRange(x) && Contains(m, x) && Contains(n, x);
      SharedAddressNests(m, n, x);
      forall a: Ip | InRange(a) && Contains(n, a) ensures Contains(m, a) {
        MembershipIsInterval(m, a);
        MembershipIsInterval(n, a);
      }
    }
  }

  /** Aligned blocks that share an element nest. */
  lemma BlocksNest(m: nat, n: nat, times: nat, l: nat, x: nat)
    requires l > 0 && times > 0 && times * l > 0 && m % (times * l) == 0 && n % l == 0
    requires m <= x < m + times * l && n <= x < n + l
    ensures m <= n && n + l <= m + times * l
  {
    var low, p := (m / (times * l)) * times, n / l;
    Regroup(m / (times * l), times, l);
    Add(low, times, l);
    Add(p, 1, l);
    AlignedBelow(low, p, l);
    AlignedBelow(p, low + times - 1, l);
    Scale(low, p, l);
    Scale(p + 1, low + times, l);
  }

  lemma Regroup(q: nat, times: nat, l: nat)
    ensures q * (times * l) == (q * times) * l
  {
  }

  lemma Add(a: nat, b: nat, l: nat)
    ensures (a + b) * l == a * l + b * l
  {
  }

  lemma AlignedBelow(a: nat, b: int, l: nat)
    requires l > 0 && a * l < (b + 1) * l
    ensures a <= b
  {
    if a > b { Scale(b + 1, a, l); }
  }

  lemma Scale(a: int, b: int, l: nat)
    requires a <= b
    ensures a * l <= b * l
  {
  }
}
