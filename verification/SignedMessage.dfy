/**
 The byte strings that peers sign towards the coordinator: the Register claim and the
 call claim. A signature is only worth as much as its message is unambiguous, so what
 is proved is when two claims encode alike.
 */
module SignedMessage {

  type Byte = x: int | 0 <= x < 256
  type Bytes = seq<Byte>
  type Int64 = x: int | -0x8000_0000_0000_0000 <= x < 0x8000_0000_0000_0000

  const TWO32 := 0x1_0000_0000
  const TWO64 := 0x1_0000_0000_0000_0000

  /** "veld-coord-register-v2" and "veld-coord-call-v1", each followed by a NUL byte. */
  const REGISTER_DOMAIN: Bytes :=
    [118, 101, 108, 100, 45, 99, 111, 111, 114, 100, 45, 114, 101, 103, 105, 115, 116, 101, 114, 45, 118, 50, 0]
  const CALL_DOMAIN: Bytes :=
    [118, 101, 108, 100, 45, 99, 111, 111, 114, 100, 45, 99, 97, 108, 108, 45, 118, 49, 0]

  datatype RegisterClaims = RegisterClaims(
    networkID: Bytes,
    name: Bytes,
    ed25519Public: Bytes,
    x25519Public: Bytes,
    endpoint: Bytes,
    subnetRoutes: seq<Bytes>,
    timestamp: Int64)

  datatype CallClaims = CallClaims(method_: Bytes, peerID: Bytes, args: seq<Bytes>, timestamp: Int64)

  // ----- Numbers

  /** The four base-256 digits of a 32-bit value, most significant first. */
  function Digits(v: nat): (b: Bytes)
    requires v < TWO32
    ensures |b| == 4
  {
    var high := v / 0x100;
    var higher := high / 0x100;
    [higher / 0x100, higher % 0x100, high % 0x100, v % 0x100]
  }

  /** The low 32 bits of `n`, big-endian: a length is cut to 32 bits before it is written. */
  function U32(n: int): (b: Bytes)
    ensures |b| == 4
  {
    Digits(n % TWO32)
  }

  /** A signed 64-bit value as its unsigned bit pattern, big-endian. */
  function U64(n: int): (b: Bytes)
    ensures |b| == 8
  {
    U32(n % TWO64 / TWO32) + U32(n % TWO64)
  }

  lemma DigitsInjective(v: nat, w: nat)
    requires v < TWO32 && w < TWO32 && Digits(v) == Digits(w)
    ensures v == w
  {
    var x, y := v / 0x100, w / 0x100;
    assert Digits(v)[0] == Digits(w)[0] && Digits(v)[1] == Digits(w)[1];
    assert Digits(v)[2] == Digits(w)[2] && Digits(v)[3] == Digits(w)[3];
    assert x / 0x100 == y / 0x100;
    assert x == y;
  }

  lemma U32Injective(m: nat, n: nat)
    requires m < TWO32 && n < TWO32 && U32(m) == U32(n)
    ensures m == n
  {
    hide Digits;
    DigitsInjective(m, n);
  }

  lemma U32Low(n: int)
    ensures U32(n) == U32(n % TWO32)
  {
    hide Digits;
    assert n % TWO32 % TWO32 == n % TWO32;
  }

  lemma SamePattern(m: Int64, n: Int64)
    requires m % TWO64 / TWO32 == n % TWO64 / TWO32 && m % TWO64 % TWO32 == n % TWO64 % TWO32
    ensures m == n
  {}

  lemma U64Injective(m: Int64, n: Int64)
    requires U64(m) == U64(n)
    ensures m == n
  {
    hide U32;
    var x, y := m % TWO64, n % TWO64;
    assert U64(m)[..4] == U32(x / TWO32) && U64(n)[..4] == U32(y / TWO32);
    assert U64(m)[4..] == U32(x) && U64(n)[4..] == U32(y);
    U32Injective(x / TWO32, y / TWO32);
    U32Low(x);
    U32Low(y);
    U32Injective(x % TWO32, y % TWO32);
    SamePattern(m, n);
  }

  // ----- Length-prefixed strings

  function Prefixed(s: Bytes): Bytes {
    U32(|s|) + s
  }

  function PrefixedAll(items: seq<Bytes>): Bytes {
    if items == [] then [] else Prefixed(items[0]) + PrefixedAll(items[1..])
  }

  ghost predicate Short(s: Bytes) {
    |s| < TWO32
  }

  /** No field can be read as part of the next: the prefix says where it ends. */
  lemma PrefixedInjective(a: Bytes, restA: Bytes, b: Bytes, restB: Bytes)
    requires Short(a) && Short(b) && Prefixed(a) + restA == Prefixed(b) + restB
    ensures a == b && restA == restB
  {
    var left, right := Prefixed(a) + restA, Prefixed(b) + restB;
    assert left[..4] == U32(|a|) && right[..4] == U32(|b|);
    U32Injective(|a|, |b|);
    assert left[4..4 + |a|] == a && right[4..4 + |b|] == b;
    assert left[4 + |a|..] == restA && right[4 + |b|..] == restB;
  }

  lemma {:induction false} PrefixedAllInjective(xs: seq<Bytes>, restX: Bytes, ys: seq<Bytes>, restY: Bytes)
    requires |xs| == |ys| && (forall x <- xs :: Short(x)) && (forall y <- ys :: Short(y))
    requires PrefixedAll(xs) + restX == PrefixedAll(ys) + restY
    ensures xs == ys && restX == restY
  {
    if xs == [] {
      assert PrefixedAll(xs) + restX == restX && PrefixedAll(ys) + restY == restY;
    } else {
      var tailX, tailY := PrefixedAll(xs[1..]) + restX, PrefixedAll(ys[1..]) + restY;
      assert PrefixedAll(xs) + restX == Prefixed(xs[0]) + tailX;
      assert PrefixedAll(ys) + restY == Prefixed(ys[0]) + tailY;
      PrefixedInjective(xs[0], tailX, ys[0], tailY);
      PrefixedAllInjective(xs[1..], restX, ys[1..], restY);
    }
  }

  /** A counted list of strings, as both messages end: the list and then the timestamp. */
  function Tail(items: seq<Bytes>, timestamp: Int64): Bytes {
    U32(|items|) + PrefixedAll(items) + U64(timestamp)
  }

  lemma TailInjective(xs: seq<Bytes>, s: Int64, ys: seq<Bytes>, t: Int64)
    requires |xs| < TWO32 && |ys| < TWO32 && (forall x <- xs :: Short(x)) && (forall y <- ys :: Short(y))
    requires Tail(xs, s) == Tail(ys, t)
    ensures xs == ys && s == t
  {
    assert Tail(xs, s)[..4] == U32(|xs|) && Tail(ys, t)[..4] == U32(|ys|);
    U32Injective(|xs|, |ys|);
    assert Tail(xs, s)[4..] == PrefixedAll(xs) + U64(s) && Tail(ys, t)[4..] == PrefixedAll(ys) + U64(t);
    PrefixedAllInjective(xs, U64(s), ys, U64(t));
    U64Injective(s, t);
  }

  // ----- Sorting

  /** Byte-wise lexicographic order, as string comparison has it. */
  predicate Leq(a: Bytes, b: Bytes) {
    if a == [] then true
    else if b == [] then false
    else if a[0] != b[0] then a[0] < b[0]
    else Leq(a[1..], b[1..])
  }

  lemma {:induction false} LeqTotal(a: Bytes, b: Bytes)
    ensures Leq(a, b) || Leq(b, a)
    ensures Leq(a, b) && Leq(b, a) ==> a == b
  {
    if a != [] && b != [] {
      LeqTotal(a[1..], b[1..]);
      assert a == [a[0]] + a[1..] && b == [b[0]] + b[1..];
    }
  }

  lemma {:induction false} LeqTransitive(a: Bytes, b: Bytes, c: Bytes)
    requires Leq(a, b) && Leq(b, c)
    ensures Leq(a, c)
  {
    if a != [] && b != [] && c != [] && a[0] == b[0] == c[0] {
      LeqTransitive(a[1..], b[1..], c[1..]);
    }
  }

  /** One string is before another if it is the start of it, or has the smaller byte where they first differ. */
  ghost predicate Before(a: Bytes, b: Bytes) {
    a <= b || exists i: nat :: DiffersAt(a, b, i) && a[i] < b[i]
  }

  ghost predicate DiffersAt(a: Bytes, b: Bytes, i: nat) {
    i < |a| && i < |b| && a[..i] == b[..i]
  }

  lemma BeforeStep(x: Byte, a: Bytes, b: Bytes)
    ensures Before([x] + a, [x] + b) <==> Before(a, b)
  {
    var u, v := [x] + a, [x] + b;
    if i: nat :| DiffersAt(a, b, i) && a[i] < b[i] {
      assert u[..i + 1] == [x] + a[..i] && v[..i + 1] == [x] + b[..i];
      assert DiffersAt(u, v, i + 1);
    }
    if i: nat :| DiffersAt(u, v, i) && u[i] < v[i] {
      assert u[..i][1..] == a[..i - 1] && v[..i][1..] == b[..i - 1];
      assert DiffersAt(a, b, i - 1);
    }
    if u <= v {
      assert u[1..] == a && v[1..] == b;
    }
  }

  lemma BeforeHead(a: Bytes, b: Bytes)
    requires a != [] && b != [] && a[0] != b[0]
    ensures Before(a, b) <==> a[0] < b[0]
  {
    assert DiffersAt(a, b, 0);
    forall i: nat | 0 < i <= |a| && i <= |b| ensures a[..i] != b[..i] {
      assert a[..i][0] == a[0] && b[..i][0] == b[0];
    }
  }

  lemma {:induction false} LeqIff(a: Bytes, b: Bytes)
    ensures Leq(a, b) <==> Before(a, b)
  {
    if a != [] && b != [] {
      hide Before;
      assert a == [a[0]] + a[1..] && b == [b[0]] + b[1..];
      if a[0] == b[0] {
        LeqIff(a[1..], b[1..]);
        BeforeStep(a[0], a[1..], b[1..]);
      } else {
        BeforeHead(a, b);
      }
    }
  }

  ghost predicate Sorted(s: seq<Bytes>) {
    forall i, j :: 0 <= i < j < |s| ==> Leq(s[i], s[j])
  }

  function Insert(x: Bytes, s: seq<Bytes>): seq<Bytes> {
    if s == [] then [x]
    else if Leq(x, s[0]) then [x] + s
    else [s[0]] + Insert(x, s[1..])
  }

  function Sort(s: seq<Bytes>): seq<Bytes> {
    if s == [] then [] else Insert(s[0], Sort(s[1..]))
  }

  lemma FrontSorted(least: Bytes, x: Bytes, s: seq<Bytes>)
    requires Leq(least, x) && (forall y <- s :: Leq(least, y))
    requires Sorted(Insert(x, s)) && multiset(Insert(x, s)) == multiset{x} + multiset(s)
    ensures Sorted([least] + Insert(x, s))
  {
    var t := Insert(x, s);
    forall j | 0 <= j < |t| ensures Leq(least, t[j]) {
      assert t[j] in multiset(t);
      assert t[j] == x || t[j] in s;
    }
  }

  lemma {:induction false} InsertSorted(x: Bytes, s: seq<Bytes>)
    requires Sorted(s)
    ensures Sorted(Insert(x, s)) && multiset(Insert(x, s)) == multiset{x} + multiset(s)
  {
    if s != [] {
      assert s == [s[0]] + s[1..];
      if Leq(x, s[0]) {
        forall j | 0 <= j < |s| ensures Leq(x, s[j]) {
          if j > 0 {
            LeqTransitive(x, s[0], s[j]);
          }
        }
      } else {
        LeqTotal(x, s[0]);
        InsertSorted(x, s[1..]);
        FrontSorted(s[0], x, s[1..]);
      }
    }
  }

  lemma {:induction false} SortIsPermutation(s: seq<Bytes>)
    ensures Sorted(Sort(s)) && multiset(Sort(s)) == multiset(s)
  {
    if s != [] {
      assert s == [s[0]] + s[1..];
      SortIsPermutation(s[1..]);
      InsertSorted(s[0], Sort(s[1..]));
    }
  }

  /** The first of a sorted arrangement is below everything in it. */
  lemma FirstIsLeast(s: seq<Bytes>, x: Bytes)
    requires Sorted(s) && x in multiset(s)
    ensures s != [] && Leq(s[0], x)
  {
    LeqTotal(x, x);
    var i :| 0 <= i < |s| && s[i] == x;
  }

  lemma SplitFirst(s: seq<Bytes>)
    requires s != []
    ensures s == [s[0]] + s[1..] && multiset(s[1..]) == multiset(s) - multiset{s[0]} && s[0] in multiset(s)
  {
    assert s == [s[0]] + s[1..];
  }

  /** A sorted arrangement is determined by what it arranges. */
  lemma {:induction false} SortedUnique(a: seq<Bytes>, b: seq<Bytes>)
    requires Sorted(a) && Sorted(b) && multiset(a) == multiset(b)
    ensures a == b
  {
    hide Leq;
    if a == [] {
      assert |multiset(b)| == |multiset(a)| == 0;
    } else {
      SplitFirst(a);
      FirstIsLeast(b, a[0]);
      SplitFirst(b);
      FirstIsLeast(a, b[0]);
      LeqTotal(a[0], b[0]);
      SortedUnique(a[1..], b[1..]);
    }
  }

  lemma SortEqualIffPermutation(a: seq<Bytes>, b: seq<Bytes>)
    ensures Sort(a) == Sort(b) <==> multiset(a) == multiset(b)
  {
    SortIsPermutation(a);
    SortIsPermutation(b);
    if multiset(a) == multiset(b) {
      SortedUnique(Sort(a), Sort(b));
    }
  }

  // ----- Messages

  function RegisterMessage(c: RegisterClaims): Bytes {
    REGISTER_DOMAIN + (Prefixed(c.networkID) + (Prefixed(c.name) + (Prefixed(c.ed25519Public) +
      (Prefixed(c.x25519Public) + (Prefixed(c.endpoint) + Tail(Sort(c.subnetRoutes), c.timestamp))))))
  }

  function CallMessage(c: CallClaims): Bytes {
    CALL_DOMAIN + (Prefixed(c.method_) + (Prefixed(c.peerID) + Tail(c.args, c.timestamp)))
  }

  method AppendPrefixedString(buf: Bytes, s: Bytes) returns (out: Bytes)
    ensures out == buf + Prefixed(s)
  {
    out := buf + U32(|s|);
    out := out + s;
  }

  method AppendAll(buf: Bytes, items: seq<Bytes>) returns (out: Bytes)
    ensures out == buf + PrefixedAll(items)
  {
    out := buf;
    for i := 0 to |items|
      invariant out + PrefixedAll(items[i..]) == buf + PrefixedAll(items)
    {
      assert items[i..][1..] == items[i + 1..];
      out := AppendPrefixedString(out, items[i]);
    }
  }

  method RegisterSignedMessage(claims: RegisterClaims) returns (buf: Bytes)
    ensures buf == RegisterMessage(claims)
  {
    hide Prefixed, PrefixedAll, U32, U64, Sort;
    var routes := Sort(claims.subnetRoutes);
    buf := REGISTER_DOMAIN;
    buf := AppendPrefixedString(buf, claims.networkID);
    buf := AppendPrefixedString(buf, claims.name);
    buf := AppendPrefixedString(buf, claims.ed25519Public);
    buf := AppendPrefixedString(buf, claims.x25519Public);
    buf := AppendPrefixedString(buf, claims.endpoint);
    buf := buf + U32(|routes|);
    buf := AppendAll(buf, routes);
    buf := buf + U64(claims.timestamp);
    SortIsPermutation(claims.subnetRoutes);
  }

  method CallSignedMessage(claims: CallClaims) returns (buf: Bytes)
    ensures buf == CallMessage(claims)
  {
    hide Prefixed, PrefixedAll, U32, U64;
    buf := CALL_DOMAIN;
    buf := AppendPrefixedString(buf, claims.method_);
    buf := AppendPrefixedString(buf, claims.peerID);
    buf := buf + U32(|claims.args|);
    buf := AppendAll(buf, claims.args);
    buf := buf + U64(claims.timestamp);
  }

  // ----- What the encodings tell apart

  ghost predicate ShortRegister(c: RegisterClaims) {
    && Short(c.networkID) && Short(c.name) && Short(c.ed25519Public) && Short(c.x25519Public) && Short(c.endpoint)
    && |c.subnetRoutes| < TWO32 && forall r <- c.subnetRoutes :: Short(r)
  }

  ghost predicate ShortCall(c: CallClaims) {
    Short(c.method_) && Short(c.peerID) && |c.args| < TWO32 && forall a <- c.args :: Short(a)
  }

  lemma SortKeepsShort(s: seq<Bytes>)
    requires |s| < TWO32 && forall r <- s :: Short(r)
    ensures |Sort(s)| < TWO32 && forall r <- Sort(s) :: Short(r)
  {
    SortIsPermutation(s);
    assert |multiset(Sort(s))| == |multiset(s)|;
    forall r | r in Sort(s) ensures Short(r) {
      assert r in multiset(Sort(s));
    }
  }

  lemma SameTail(prefix: Bytes, a: Bytes, b: Bytes)
    requires prefix + a == prefix + b
    ensures a == b
  {
    assert (prefix + a)[|prefix|..] == a && (prefix + b)[|prefix|..] == b;
  }

  /**
   Two Register claims have the same message exactly when all their fields agree and
   their routes are permutations of each other.
   */
  lemma RegisterMessagesAgree(c: RegisterClaims, d: RegisterClaims)
    requires ShortRegister(c) && ShortRegister(d)
    ensures RegisterMessage(c) == RegisterMessage(d)
            <==> c.(subnetRoutes := d.subnetRoutes) == d && multiset(c.subnetRoutes) == multiset(d.subnetRoutes)
  {
    hide Prefixed, PrefixedAll, U32, U64, Sort, Tail, REGISTER_DOMAIN;
    SortEqualIffPermutation(c.subnetRoutes, d.subnetRoutes);
    if RegisterMessage(c) == RegisterMessage(d) {
      SortKeepsShort(c.subnetRoutes);
      SortKeepsShort(d.subnetRoutes);
      var c6, d6 := Tail(Sort(c.subnetRoutes), c.timestamp), Tail(Sort(d.subnetRoutes), d.timestamp);
      var c5, d5 := Prefixed(c.endpoint) + c6, Prefixed(d.endpoint) + d6;
      var c4, d4 := Prefixed(c.x25519Public) + c5, Prefixed(d.x25519Public) + d5;
      var c3, d3 := Prefixed(c.ed25519Public) + c4, Prefixed(d.ed25519Public) + d4;
      var c2, d2 := Prefixed(c.name) + c3, Prefixed(d.name) + d3;
      SameTail(REGISTER_DOMAIN, Prefixed(c.networkID) + c2, Prefixed(d.networkID) + d2);
      PrefixedInjective(c.networkID, c2, d.networkID, d2);
      PrefixedInjective(c.name, c3, d.name, d3);
      PrefixedInjective(c.ed25519Public, c4, d.ed25519Public, d4);
      PrefixedInjective(c.x25519Public, c5, d.x25519Public, d5);
      PrefixedInjective(c.endpoint, c6, d.endpoint, d6);
      TailInjective(Sort(c.subnetRoutes), c.timestamp, Sort(d.subnetRoutes), d.timestamp);
    }
  }

  /** Different call claims have different messages. */
  lemma CallMessagesAgree(c: CallClaims, d: CallClaims)
    requires ShortCall(c) && ShortCall(d)
    ensures CallMessage(c) == CallMessage(d) <==> c == d
  {
    hide Prefixed, PrefixedAll, U32, U64, Tail, CALL_DOMAIN;
    if CallMessage(c) == CallMessage(d) {
      var c3, d3 := Tail(c.args, c.timestamp), Tail(d.args, d.timestamp);
      var c2, d2 := Prefixed(c.peerID) + c3, Prefixed(d.peerID) + d3;
      SameTail(CALL_DOMAIN, Prefixed(c.method_) + c2, Prefixed(d.method_) + d2);
      PrefixedInjective(c.method_, c2, d.method_, d2);
      PrefixedInjective(c.peerID, c3, d.peerID, d3);
      TailInjective(c.args, c.timestamp, d.args, d.timestamp);
    }
  }

  // ----- Reading the messages back

  /** The domains spell their names and end with a NUL. */
  lemma DomainsSpell()
    ensures |REGISTER_DOMAIN| == 23 && REGISTER_DOMAIN[22] == 0
    ensures forall i :: 0 <= i < 22 ==> REGISTER_DOMAIN[i] == "veld-coord-register-v2"[i] as int
    ensures |CALL_DOMAIN| == 19 && CALL_DOMAIN[18] == 0
    ensures forall i :: 0 <= i < 18 ==> CALL_DOMAIN[i] == "veld-coord-call-v1"[i] as int
  {}

  /** The number whose digits to the base 256 are the bytes, the first the highest. */
  ghost function Number(b: Bytes): nat {
    if b == [] then 0 else Number(b[..|b| - 1]) * 256 + b[|b| - 1]
  }

  lemma NumberOfFour(b: Bytes)
    requires |b| == 4
    ensures Number(b) == ((b[0] as int * 256 + b[1]) * 256 + b[2]) * 256 + b[3]
  {
    assert b[..3][..2] == b[..2] && b[..2][..1] == b[..1] && b[..1][..0] == [];
    assert Number(b[..1]) == b[0];
    assert Number(b[..2]) == b[0] as int * 256 + b[1];
  }

  lemma {:induction false} NumberAppend(a: Bytes, b: Bytes)
    requires |b| == 4
    ensures Number(a + b) == Number(a) * TWO32 + Number(b)
  {
    NumberOfFour(b);
    var c := a + b;
    var n := |a|;
    assert c[..n + 3][..n + 2] == c[..n + 2] && c[..n + 2][..n + 1] == c[..n + 1] && c[..n + 1][..n] == a;
    assert Number(c) == Number(c[..n + 3]) * 256 + b[3];
    assert Number(c[..n + 3]) == Number(c[..n + 2]) * 256 + b[2];
    assert Number(c[..n + 2]) == Number(c[..n + 1]) * 256 + b[1];
    assert Number(c[..n + 1]) == Number(a) * 256 + b[0];
  }

  /** A length is written with its highest byte first. */
  lemma U32Reads(n: int)
    ensures Number(U32(n)) == n % 0x1_0000_0000
  {
    var v := n % TWO32;
    NumberOfFour(U32(n));
  }

  /** A timestamp is written with its highest byte first, a negative one as its two's complement. */
  lemma U64Reads(n: Int64)
    ensures Number(U64(n)) == if n >= 0 then n else n + 0x1_0000_0000_0000_0000
  {
    hide U32;
    var x := n % TWO64;
    NumberAppend(U32(x / TWO32), U32(x));
    U32Reads(x / TWO32);
    U32Reads(x);
    assert x / TWO32 < TWO32;
  }

  /** A string behind its four-byte length, and what follows it. */
  ghost predicate ReadsString(b: Bytes, s: Bytes, rest: Bytes) {
    4 <= |b| && b == b[..4] + s + rest && Number(b[..4]) == |s|
  }

  lemma PrefixedReads(s: Bytes, rest: Bytes)
    requires Short(s)
    ensures ReadsString(Prefixed(s) + rest, s, rest)
  {
    hide U32;
    U32Reads(|s|);
    assert (Prefixed(s) + rest)[..4] == U32(|s|);
  }

  /** So many strings, and what follows them. */
  ghost predicate ReadsStrings(b: Bytes, items: seq<Bytes>, rest: Bytes)
    decreases |items|
  {
    if items == [] then b == rest
    else exists more :: ReadsString(b, items[0], more) && ReadsStrings(more, items[1..], rest)
  }

  lemma {:induction false} PrefixedAllReads(items: seq<Bytes>, rest: Bytes)
    requires forall s <- items :: Short(s)
    ensures ReadsStrings(PrefixedAll(items) + rest, items, rest)
  {
    hide Prefixed, ReadsString;
    if items == [] {
      assert PrefixedAll(items) + rest == rest;
    } else {
      var more := PrefixedAll(items[1..]) + rest;
      assert PrefixedAll(items) + rest == Prefixed(items[0]) + more;
      PrefixedReads(items[0], more);
      PrefixedAllReads(items[1..], rest);
    }
  }

  /** A four-byte count, so many strings, and an eight-byte time to end with. */
  ghost predicate ReadsTail(b: Bytes, items: seq<Bytes>, timestamp: Int64) {
    && 4 <= |b| && Number(b[..4]) == |items|
    && exists time ::
         && ReadsStrings(b[4..], items, time) && |time| == 8
         && Number(time) == if timestamp >= 0 then timestamp else timestamp + 0x1_0000_0000_0000_0000
  }

  lemma TailReads(items: seq<Bytes>, timestamp: Int64)
    requires |items| < TWO32 && forall s <- items :: Short(s)
    ensures ReadsTail(Tail(items, timestamp), items, timestamp)
  {
    hide U32, U64, Number, PrefixedAll, ReadsStrings;
    U32Reads(|items|);
    U64Reads(timestamp);
    PrefixedAllReads(items, U64(timestamp));
    assert Tail(items, timestamp)[..4] == U32(|items|);
    assert Tail(items, timestamp)[4..] == PrefixedAll(items) + U64(timestamp);
  }

  lemma {:induction false} ReadsFirst(s: Bytes, b: Bytes, items: seq<Bytes>, rest: Bytes)
    requires Short(s) && ReadsStrings(b, items, rest)
    ensures ReadsStrings(Prefixed(s) + b, [s] + items, rest)
  {
    hide Prefixed, ReadsString;
    PrefixedReads(s, b);
    assert ([s] + items)[0] == s && ([s] + items)[1..] == items;
  }

  /**
   A Register message is the 23 bytes of its domain, the five strings of the claim (network,
   name, signing key, exchange key, endpoint), the routes counted and in ascending order,
   and the time.
   */
  lemma RegisterMessageReads(c: RegisterClaims)
    requires ShortRegister(c)
    ensures var b := RegisterMessage(c);
            |b| >= 23 && b[..23] == REGISTER_DOMAIN &&
            exists tail ::
              && ReadsStrings(b[23..], [c.networkID, c.name, c.ed25519Public, c.x25519Public, c.endpoint], tail)
              && exists routes :: Sorted(routes) && multiset(routes) == multiset(c.subnetRoutes) && ReadsTail(tail, routes, c.timestamp)
  {
    hide Prefixed, ReadsStrings, ReadsTail, Sorted, Tail, Sort;
    var routes := Sort(c.subnetRoutes);
    var tail := Tail(routes, c.timestamp);
    SortIsPermutation(c.subnetRoutes);
    SortKeepsShort(c.subnetRoutes);
    TailReads(routes, c.timestamp);
    ReadsNone(tail);
    ReadsFirst(c.endpoint, tail, [], tail);
    assert [c.endpoint] + [] == [c.endpoint];
    ReadsFirst(c.x25519Public, Prefixed(c.endpoint) + tail, [c.endpoint], tail);
    var b3 := Prefixed(c.x25519Public) + (Prefixed(c.endpoint) + tail);
    assert [c.x25519Public] + [c.endpoint] == [c.x25519Public, c.endpoint];
    ReadsFirst(c.ed25519Public, b3, [c.x25519Public, c.endpoint], tail);
    assert [c.ed25519Public] + [c.x25519Public, c.endpoint] == [c.ed25519Public, c.x25519Public, c.endpoint];
    ReadsFirst(c.name, Prefixed(c.ed25519Public) + b3, [c.ed25519Public, c.x25519Public, c.endpoint], tail);
    var four := [c.name, c.ed25519Public, c.x25519Public, c.endpoint];
    assert [c.name] + [c.ed25519Public, c.x25519Public, c.endpoint] == four;
    ReadsFirst(c.networkID, Prefixed(c.name) + (Prefixed(c.ed25519Public) + b3), four, tail);
    assert [c.networkID] + four == [c.networkID, c.name, c.ed25519Public, c.x25519Public, c.endpoint];
    assert RegisterMessage(c)[23..] == Prefixed(c.networkID) + (Prefixed(c.name) + (Prefixed(c.ed25519Public) + b3));
  }

  lemma ReadsNone(b: Bytes)
    ensures ReadsStrings(b, [], b)
  {}

  /** A call message is the 19 bytes of its domain, the method, the peer, the arguments counted and in their order, and the time. */
  lemma CallMessageReads(c: CallClaims)
    requires ShortCall(c)
    ensures var b := CallMessage(c);
            |b| >= 19 && b[..19] == CALL_DOMAIN &&
            exists tail :: ReadsStrings(b[19..], [c.method_, c.peerID], tail) && ReadsTail(tail, c.args, c.timestamp)
  {
    hide Prefixed, ReadsStrings, ReadsTail, Tail;
    var tail := Tail(c.args, c.timestamp);
    TailReads(c.args, c.timestamp);
    ReadsNone(tail);
    ReadsFirst(c.peerID, tail, [], tail);
    assert [c.peerID] + [] == [c.peerID];
    ReadsFirst(c.method_, Prefixed(c.peerID) + tail, [c.peerID], tail);
    assert [c.method_] + [c.peerID] == [c.method_, c.peerID];
    assert CallMessage(c)[19..] == Prefixed(c.method_) + (Prefixed(c.peerID) + tail);
  }

  /** No Register message is a call message, whatever the lengths of the fields. */
  lemma DomainsSeparate(c: RegisterClaims, d: CallClaims)
    ensures RegisterMessage(c) != CallMessage(d)
  {
    assert RegisterMessage(c)[11] == REGISTER_DOMAIN[11] == 114;
    assert CallMessage(d)[11] == CALL_DOMAIN[11] == 99;
  }

  /**
   The bound on lengths is needed: a field of exactly 2^32 bytes gets the prefix of an
   empty one, and two different claims then encode alike.
   */
  lemma LongFieldsCollide()
    ensures exists c, d :: c != d && RegisterMessage(c) == RegisterMessage(d)
  {
    var long: Bytes := seq(TWO32, _ => 0);
    var c := RegisterClaims(long, [], [], [], [], [], 0);
    var d := RegisterClaims([], long, [], [], [], [], 0);
    assert TWO32 % TWO32 == 0 && U32(TWO32) == U32(0) == [0, 0, 0, 0];
    assert Prefixed(long) == [0, 0, 0, 0] + long && Prefixed([]) == [0, 0, 0, 0];
    assert Prefixed(long) + Prefixed([]) == Prefixed([]) + Prefixed(long);
    var rest := Prefixed([]) + (Prefixed([]) + (Prefixed([]) + Tail(Sort([]), 0)));
    assert RegisterMessage(c) == REGISTER_DOMAIN + ((Prefixed(long) + Prefixed([])) + rest);
    assert RegisterMessage(d) == REGISTER_DOMAIN + ((Prefixed([]) + Prefixed(long)) + rest);
    assert c.networkID != d.networkID;
  }
}
