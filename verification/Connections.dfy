/** What identifies a connection, and the orders its two trees are kept in (connection.h, sglib.h). */
module Connections {
  import opened Orders
  import opened Nodes

  type Octet = x: int | 0 <= x < 256
  type Address = a: seq<Octet> | |a| == 16 witness seq(16, _ => 0)
  newtype Int32 = x: int | -0x8000_0000 <= x < 0x8000_0000

  const IPV4: Octet := 0
  const IPV6: Octet := 1

  /** The fields `ch_connection_cmp` looks at. */
  datatype Key = Key(protocol: Octet, address: Address, port: Int32)

  /** A key whose port came out of a handshake, so that it has 16 bits. */
  type Peer = k: Key | 0 <= k.port < 0x1_0000 witness Key(0, seq(16, _ => 0), 0)

  /** The key of a connection that has been initialized and nothing else. */
  const BLANK: Peer := Key(IPV4, [0, 0, 0, 0, 0, 0, 0, 0, 0, 0, 0, 0, 0, 0, 0, 0], 0)

  /** Two's complement: the 32-bit integer an exact difference is cut down to. */
  function Wrap(x: int): int {
    var low := x % 0x1_0000_0000;
    if low < 0x8000_0000 then low else low - 0x1_0000_0000
  }

  /** The difference of the first bytes from `i` on, below `n`, that differ. */
  function MemCmp(a: seq<Octet>, b: seq<Octet>, i: nat, n: nat): int
    requires i <= n <= |a| && n <= |b|
    decreases n - i
  {
    if i == n then 0 else if a[i] != b[i] then a[i] - b[i] else MemCmp(a, b, i + 1, n)
  }

  /** How many bytes of the address count. */
  function Significant(protocol: Octet): nat {
    if protocol == IPV6 then 16 else 4
  }

  function KeyCmp(x: Key, y: Key): int {
    if x.protocol != y.protocol then x.protocol - y.protocol
    else
      var c := MemCmp(x.address, y.address, 0, Significant(x.protocol));
      if c != 0 then c else Wrap(x.port as int - y.port as int)
  }

  /** The comparator of the connection dictionary. */
  function PeerCmp(x: Entry<Peer>, y: Entry<Peer>): int {
    KeyCmp(x.key, y.key)
  }

  /** The comparator of the set of replaced connections: the numeric one, on pointers. */
  function AddressCmp(x: Entry<Peer>, y: Entry<Peer>): int {
    if x.addr > y.addr then 1 else if x.addr < y.addr then -1 else 0
  }

  // ---------- bytes ----------

  lemma {:induction false} MemCmpFlips(a: seq<Octet>, b: seq<Octet>, i: nat, n: nat)
    requires i <= n <= |a| && n <= |b|
    ensures MemCmp(a, b, i, n) == -MemCmp(b, a, i, n)
    decreases n - i
  {
    if i < n {
      MemCmpFlips(a, b, i + 1, n);
    }
  }

  lemma {:induction false} MemCmpDecides(a: seq<Octet>, b: seq<Octet>, i: nat, n: nat)
    requires i <= n <= |a| && n <= |b|
    ensures MemCmp(a, b, i, n) == 0 <==> a[i..n] == b[i..n]
    decreases n - i
  {
    if i < n {
      MemCmpDecides(a, b, i + 1, n);
      assert a[i..n] == [a[i]] + a[i + 1..n] && b[i..n] == [b[i]] + b[i + 1..n];
    }
  }

  lemma {:induction false} MemCmpTransitive(a: seq<Octet>, b: seq<Octet>, c: seq<Octet>, i: nat, n: nat)
    requires i <= n <= |a| && n <= |b| && n <= |c|
    requires MemCmp(a, b, i, n) <= 0 && MemCmp(b, c, i, n) <= 0
    ensures MemCmp(a, c, i, n) <= 0
    ensures MemCmp(a, c, i, n) == 0 ==> MemCmp(a, b, i, n) == 0 && MemCmp(b, c, i, n) == 0
    decreases n - i
  {
    if i < n && a[i] == b[i] == c[i] {
      MemCmpTransitive(a, b, c, i + 1, n);
    }
  }

  // ---------- connections ----------

  /** With 16-bit ports the dictionary's comparator is one the tree can work with. */
  lemma PeersAreOrdered()
    ensures IsComparator(PeerCmp)
  {
    forall x: Entry<Peer>, y: Entry<Peer> ensures PeerCmp(x, y) < 0 <==> PeerCmp(y, x) > 0 {
      if x.key.protocol == y.key.protocol {
        MemCmpFlips(x.key.address, y.key.address, 0, Significant(x.key.protocol));
      }
    }
    forall x: Entry<Peer>, y: Entry<Peer>, z: Entry<Peer> | PeerCmp(x, y) <= 0 && PeerCmp(y, z) <= 0
      ensures PeerCmp(x, z) <= 0
    {
      PeersTransitive(x.key, y.key, z.key);
    }
  }

  lemma PeersTransitive(x: Peer, y: Peer, z: Peer)
    requires KeyCmp(x, y) <= 0 && KeyCmp(y, z) <= 0
    ensures KeyCmp(x, z) <= 0
  {
    if x.protocol == y.protocol == z.protocol {
      MemCmpTransitive(x.address, y.address, z.address, 0, Significant(x.protocol));
    }
  }

  /** Two keys compare equal exactly when protocol, significant address bytes and port agree. */
  lemma SameKey(x: Key, y: Key)
    ensures KeyCmp(x, y) == 0 <==>
            && x.protocol == y.protocol && x.port == y.port
            && x.address[..if x.protocol == 1 then 16 else 4] == y.address[..if x.protocol == 1 then 16 else 4]
  {
    if x.protocol == y.protocol {
      var n := Significant(x.protocol);
      MemCmpDecides(x.address, y.address, 0, n);
      assert x.address[0..n] == x.address[..n] && y.address[0..n] == y.address[..n];
    }
  }

  /** By protocol first, then by the first address byte that differs among the 4 or 16 that count, then by port. */
  ghost predicate KeyBelow(x: Key, y: Key) {
    var n := if x.protocol == 1 then 16 else 4;
    || x.protocol < y.protocol
    || (x.protocol == y.protocol
        && exists i :: 0 <= i < n && x.address[..i] == y.address[..i] && x.address[i] < y.address[i])
    || (x.protocol == y.protocol && x.address[..n] == y.address[..n] && x.port < y.port)
  }

  lemma {:induction false} MemCmpBelow(a: seq<Octet>, b: seq<Octet>, i: nat, n: nat)
    requires i <= n <= |a| && n <= |b| && a[..i] == b[..i]
    ensures MemCmp(a, b, i, n) < 0 <==> exists k :: 0 <= k < n && a[..k] == b[..k] && a[k] < b[k]
    decreases n - i
  {
    if i < n && a[i] == b[i] {
      assert a[..i + 1] == a[..i] + [a[i]] && b[..i + 1] == b[..i] + [b[i]];
      MemCmpBelow(a, b, i + 1, n);
    } else {
      forall k | 0 <= k < i ensures a[k] == b[k] {
        assert a[..i][k] == a[k] && b[..i][k] == b[k];
      }
      forall k | i < k < n ensures a[..k] != b[..k] {
        assert a[..k][i] == a[i] && b[..k][i] == b[i];
      }
    }
  }

  /** Which of two connections comes first. */
  lemma KeyOrder(x: Peer, y: Peer)
    ensures KeyCmp(x, y) < 0 <==> KeyBelow(x, y)
  {
    hide MemCmp;
    if x.protocol == y.protocol {
      var n := Significant(x.protocol);
      assert x.address[..0] == y.address[..0];
      MemCmpBelow(x.address, y.address, 0, n);
      MemCmpDecides(x.address, y.address, 0, n);
      assert x.address[0..n] == x.address[..n] && y.address[0..n] == y.address[..n];
    }
  }

  lemma AddressesAreOrdered()
    ensures IsComparator(AddressCmp)
    ensures forall x, y :: AddressCmp(x, y) < 0 <==> x.addr < y.addr
  {
  }

  // ---------- why the ports must be short ----------

  /** On two keys for the same address the comparison has the sign of the port difference exactly
      when that difference fits in 32 bits. */
  lemma PortsCompareWhenTheyFit(x: Key, y: Key)
    requires x.protocol == y.protocol && x.address == y.address
    ensures var d := x.port as int - y.port as int;
            (KeyCmp(x, y) < 0 <==> d < 0) && (KeyCmp(x, y) > 0 <==> d > 0) <==> -0x8000_0000 <= d < 0x8000_0000
  {
    MemCmpDecides(x.address, y.address, 0, Significant(x.protocol));
  }

  /** On all of `int32_t` the comparison runs in a circle, so that it is not an order. */
  lemma WidePortsRunInACircle(a: Address)
    ensures var x, y, z := Key(IPV4, a, -0x8000_0000), Key(IPV4, a, 0), Key(IPV4, a, 0x7FFF_FFFF);
            KeyCmp(x, y) < 0 && KeyCmp(y, z) < 0 && KeyCmp(z, x) < 0
  {
    MemCmpDecides(a, a, 0, 4);
  }
}
