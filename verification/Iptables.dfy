/** The kernel's side of the firewall: the chains that the iptables commands of the server change. */
module Iptables {
  import opened Sequences

  // An address block: a 16-byte address as a number, the bits of the mask, and 32 or 128.
  datatype Network = Network(ip: nat, mask: nat, size: nat)

  // Port 0 stands for all ports. The size and mask fields of the source trade places when a rule is
  // stored and again when it is printed, so a stored rule is just its network and port.
  datatype ChainRule = ChainRule(network: Network, port: nat)

  // A packet that opens a connection, coming in on the VPN interface.
  datatype Packet = Packet(src: nat, dst: nat, tcp: bool, port: nat)

  datatype Jump = Jump(source: Network, user: string)

  function TwoTo(n: nat): (r: nat)
    ensures r > 0
  {
    if n == 0 then 1 else 2 * TwoTo(n - 1)
  }

  function Divided(a: nat, m: nat): nat
    requires m > 0
  {
    a / m
  }

  // An address without its lowest bits.
  function Shifted(address: nat, bits: nat): nat {
    Divided(address, TwoTo(bits))
  }

  predicate Covers(network: Network, address: nat) {
    var hostBits := if network.mask <= network.size then network.size - network.mask else 0;
    Shifted(address, hostBits) == Shifted(network.ip, hostBits)
  }

  // Bit k of an address, the lowest first.
  function AddressBit(address: nat, k: nat): nat {
    Shifted(address, k) % 2
  }

  lemma Multiple(d: int, m: int)
    requires m >= 0
    ensures d >= 1 ==> d * m >= m
    ensures d <= -1 ==> d * m <= -m
  {
  }

  lemma Quotient(a: nat, m: nat, q: nat, r: nat)
    requires a == q * m + r && r < m
    ensures a / m == q
  {
    var d := a / m - q;
    assert a / m * m + a % m == a;
    assert d * m == r - a % m;
    Multiple(d, m);
  }

  lemma DivideTwice(a: nat, m: nat)
    requires m > 0
    ensures a / (2 * m) == a / 2 / m
  {
    var q, r := a / 2 / m, a / 2 % m;
    assert a / 2 == q * m + r;
    assert a == q * (2 * m) + (2 * r + a % 2);
    Quotient(a, 2 * m, q, 2 * r + a % 2);
  }

  lemma ShiftedNext(a: nat, h: nat)
    ensures Shifted(a, 0) == a && Shifted(a, h + 1) == Shifted(a / 2, h)
  {
    DivideTwice(a, TwoTo(h));
  }

  // Numbers with the same bits are the same.
  lemma {:induction false} SameBits(a: nat, b: nat)
    requires forall k: nat :: AddressBit(a, k) == AddressBit(b, k)
    ensures a == b
    decreases a + b
  {
    hide Shifted;
    if a + b > 0 {
      ShiftedNext(a, 0);
      ShiftedNext(b, 0);
      assert AddressBit(a, 0) == a % 2 && AddressBit(b, 0) == b % 2;
      forall k: nat
        ensures AddressBit(a / 2, k) == AddressBit(b / 2, k)
      {
        ShiftedNext(a, k);
        ShiftedNext(b, k);
        assert AddressBit(a, k + 1) == AddressBit(b, k + 1);
      }
      SameBits(a / 2, b / 2);
    }
  }

  lemma {:induction false} ShiftedBits(a: nat, h: nat, k: nat)
    ensures AddressBit(Shifted(a, h), k) == AddressBit(a, h + k)
    decreases h
  {
    hide Shifted;
    if h > 0 {
      ShiftedNext(a, h - 1);
      ShiftedNext(a, h - 1 + k);
      ShiftedBits(a / 2, h - 1, k);
    } else {
      ShiftedNext(a, 0);
    }
  }

  /** A network covers exactly the addresses that agree with its own on the leading bits, as many as its mask has. */
  lemma CoversLeadingBits(network: Network, address: nat)
    requires network.mask <= network.size
    ensures Covers(network, address) <==>
      forall k: nat | network.size - network.mask <= k :: AddressBit(address, k) == AddressBit(network.ip, k)
  {
    hide AddressBit, Shifted;
    var h := network.size - network.mask;
    var a, b := Shifted(address, h), Shifted(network.ip, h);
    forall k: nat
      ensures AddressBit(a, k) == AddressBit(address, h + k) && AddressBit(b, k) == AddressBit(network.ip, h + k)
    {
      ShiftedBits(address, h, k);
      ShiftedBits(network.ip, h, k);
    }
    if a == b {
      forall k: nat | h <= k
        ensures AddressBit(address, k) == AddressBit(network.ip, k)
      {
        assert k == h + (k - h) && AddressBit(a, k - h) == AddressBit(b, k - h);
      }
    } else if forall k: nat | h <= k :: AddressBit(address, k) == AddressBit(network.ip, k) {
      assert forall k: nat :: AddressBit(a, k) == AddressBit(b, k);
      SameBits(a, b);
    }
  }

  lemma ShiftedBlock(a: nat, b: nat, h: nat)
    ensures Shifted(a, h) == Shifted(b, h) <==> b - b % TwoTo(h) <= a < b - b % TwoTo(h) + TwoTo(h)
  {
    var width, q := TwoTo(h), Shifted(b, h);
    assert b == q * width + b % width;
    assert a == Shifted(a, h) * width + a % width;
    if q * width <= a < q * width + width {
      Quotient(a, width, q, a - q * width);
    }
  }

  /** That is one block of 2^(size - mask) addresses: with the whole mask just one, with none all of the family. */
  lemma CoversBlock(network: Network, address: nat)
    requires network.mask <= network.size
    ensures var width := TwoTo(network.size - network.mask);
      var first := network.ip - network.ip % width;
      Covers(network, address) <==> first <= address < first + width
    ensures network.mask == network.size ==> (Covers(network, address) <==> address == network.ip)
    ensures network.mask == 0 && network.ip < TwoTo(network.size) ==>
      (Covers(network, address) <==> address < TwoTo(network.size))
  {
    hide Shifted;
    ShiftedBlock(address, network.ip, network.size - network.mask);
    ShiftedNext(address, 0);
    ShiftedNext(network.ip, 0);
    if network.mask == 0 && network.ip < TwoTo(network.size) {
      SmallRest(network.ip, TwoTo(network.size));
    }
  }

  lemma SmallRest(a: nat, m: nat)
    requires a < m
    ensures a % m == a
  {
  }

  predicate Matches(rule: ChainRule, p: Packet) {
    Covers(rule.network, p.dst) && (rule.port == 0 || (p.tcp && p.port == rule.port))
  }

  ghost predicate Accepts(chain: seq<ChainRule>, p: Packet) {
    exists rule :: rule in chain && Matches(rule, p)
  }

  // Rule numbers count from 1; any other number is an error and changes nothing.
  predicate ValidNumber(chain: seq<ChainRule>, number: int) {
    1 <= number <= |chain|
  }

  class Tables {
    var userChains: map<string, seq<ChainRule>>  // chain "user-" + name
    var forward: seq<Jump>                       // FORWARD, after its rule for established connections

    constructor ()
      ensures userChains == map[] && forward == []
    {
      userChains := map[];
      forward := [];
    }

    method NewChain(user: string) returns (ok: bool)
      modifies this`userChains
      ensures ok == (user !in old(userChains))
      ensures userChains == if ok then old(userChains)[user := []] else old(userChains)
    {
      ok := user !in userChains;
      if ok {
        userChains := userChains[user := []];
      }
    }

    method Append(user: string, rule: ChainRule) returns (ok: bool)
      modifies this`userChains
      ensures ok == (user in old(userChains))
      ensures userChains == if ok then old(userChains)[user := old(userChains)[user] + [rule]] else old(userChains)
    {
      ok := user in userChains;
      if ok {
        userChains := userChains[user := userChains[user] + [rule]];
      }
    }

    method Replace(user: string, number: int, rule: ChainRule) returns (ok: bool)
      modifies this`userChains
      ensures ok == (user in old(userChains) && ValidNumber(old(userChains)[user], number))
      ensures userChains ==
        if ok then old(userChains)[user := old(userChains)[user][number - 1 := rule]] else old(userChains)
    {
      ok := user in userChains && ValidNumber(userChains[user], number);
      if ok {
        userChains := userChains[user := userChains[user][number - 1 := rule]];
      }
    }

    method Delete(user: string, number: int) returns (ok: bool)
      modifies this`userChains
      ensures ok == (user in old(userChains) && ValidNumber(old(userChains)[user], number))
      ensures userChains ==
        if ok then old(userChains)[user := Without(old(userChains)[user], number - 1)] else old(userChains)
    {
      ok := user in userChains && ValidNumber(userChains[user], number);
      if ok {
        userChains := userChains[user := Without(userChains[user], number - 1)];
      }
    }

    method Flush(user: string) returns (ok: bool)
      modifies this`userChains
      ensures ok == (user in old(userChains))
      ensures userChains == if ok then old(userChains)[user := []] else old(userChains)
    {
      ok := user in userChains;
      if ok {
        userChains := userChains[user := []];
      }
    }

    // Only an empty chain that no rule jumps to can be deleted.
    method DeleteChain(user: string) returns (ok: bool)
      modifies this`userChains
      ensures ok ==
        (user in old(userChains) && old(userChains)[user] == [] && forall j | j in forward :: j.user != user)
      ensures userChains == if ok then old(userChains) - {user} else old(userChains)
    {
      ok := user in userChains && userChains[user] == [] && forall j | j in forward :: j.user != user;
      if ok {
        userChains := userChains - {user};
      }
    }

    // A jump needs a chain to jump to.
    method AppendJump(source: Network, user: string) returns (ok: bool)
      modifies this`forward
      ensures ok == (user in userChains)
      ensures forward == if ok then old(forward) + [Jump(source, user)] else old(forward)
    {
      ok := user in userChains;
      if ok {
        forward := forward + [Jump(source, user)];
      }
    }

    // Deletes the first rule equal to the one given.
    method DeleteJump(source: Network, user: string) returns (ok: bool)
      modifies this`forward
      ensures ok == (user in userChains && Jump(source, user) in old(forward))
      ensures !ok ==> forward == old(forward)
      ensures ok ==> multiset(forward) == multiset(old(forward)) - multiset{Jump(source, user)}
    {
      var jump := Jump(source, user);
      ok := user in userChains && jump in forward;
      if ok {
        var i := 0;
        while forward[i] != jump
          invariant 0 <= i < |forward| && jump in forward[i..]
          decreases |forward| - i
        {
          i := i + 1;
        }
        WithoutMultiset(forward, i);
        forward := Without(forward, i);
      }
    }
  }
}
