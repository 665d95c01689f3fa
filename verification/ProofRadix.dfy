/**
 * The Merkle proof verifier for the Handshake name tree (src/proof-radix.c).
 *
 * A radix tree over 256-bit keys is committed to by one digest.  A proof opens
 * the nodes on the path of a key and leaves every other subtree as a bare digest.
 * `Tree` describes both: a complete tree has no `Stub` and no `Sealed` leaf.
 *
 * The hash function is a parameter, and nothing is assumed about it.  Statements
 * that only hold when it is collision free instead name the offending inputs:
 * `Broken` speaks of the strings hashed by the two trees at hand, not of the
 * collisions that every 32-octet hash function has somewhere.
 */
module ProofRadix {
  import opened Bytes

  type Hasher = Bytes -> Hash

  const MAX_DATA_SIZE := 668

  datatype Tree =
    | Empty
    | Stub(hash: Hash)
    | Leaf(key: Hash, value: Bytes)
    | Sealed(key: Hash, digest: Hash)
    | Fork(prefix: Bytes, size: nat, left: Tree, right: Tree)

  datatype Node = Node(prefix: Bytes, size: nat, sibling: Hash)

  datatype Tail =
    | Deadend
    | Short(prefix: Bytes, size: nat, left: Hash, right: Hash)
    | Collision(nxKey: Hash, nxHash: Hash)
    | Exists(value: Bytes)

  datatype Proof = Proof(depth: nat, nodes: seq<Node>, tail: Tail)

  datatype Code =
    | ProofOk | HashMismatch | SameKey | SamePath | NegDepth | PathMismatch | TooDeep | Encoding

  datatype Answer = Hidden | Known(value: Option<Bytes>)

  // ----- Bits and prefixes

  /** Bit i of an octet string, most significant bit of each octet first. */
  predicate Bit(m: Bytes, i: nat)
    requires i < 8 * |m|
  {
    var b := m[i / 8] as int;
    match i % 8
    case 0 => b / 128 == 1
    case 1 => b / 64 % 2 == 1
    case 2 => b / 32 % 2 == 1
    case 3 => b / 16 % 2 == 1
    case 4 => b / 8 % 2 == 1
    case 5 => b / 4 % 2 == 1
    case 6 => b / 2 % 2 == 1
    case _ => b % 2 == 1
  }

  predicate WfPrefix(prefix: Bytes, size: nat) {
    size <= 256 && (size + 7) / 8 <= |prefix|
  }

  /** The octets of a prefix that take part in hashing; unused low bits are kept. */
  function Used(prefix: Bytes, size: nat): Bytes
    requires WfPrefix(prefix, size)
  {
    prefix[..(size + 7) / 8]
  }

  ghost predicate Matches(prefix: Bytes, size: nat, key: Hash, depth: nat)
    requires WfPrefix(prefix, size) && depth <= 256
  {
    size <= 256 - depth && forall k :: 0 <= k < size ==> Bit(prefix, k) == Bit(key, depth + k)
  }

  method Has(prefix: Bytes, size: nat, key: Hash, depth: nat) returns (r: bool)
    requires WfPrefix(prefix, size) && depth <= 256
    ensures r == Matches(prefix, size, key, depth)
  {
    var len := if size < 256 - depth then size else 256 - depth;
    var x, y, c := 0, depth, 0;
    for i := 0 to len
      invariant x == c == i && y == depth + i
      invariant forall k :: 0 <= k < i ==> Bit(prefix, k) == Bit(key, depth + k)
    {
      if Bit(prefix, x) != Bit(key, y) {
        return false;
      }
      x, y, c := x + 1, y + 1, c + 1;
    }
    return c == size;
  }

  // ----- Hashing

  function ForkInput(prefix: Bytes, size: nat, left: Hash, right: Hash): Bytes
    requires WfPrefix(prefix, size)
  {
    if size == 0 then [1] + left + right
    else [2, size % 256, size / 256] + Used(prefix, size) + left + right
  }

  function LeafInput(key: Hash, digest: Hash): Bytes {
    [0] + key + digest
  }

  /** Octet strings and prefixes read from memory have the advertised sizes. */
  predicate Wf(t: Tree) {
    t.Fork? ==> WfPrefix(t.prefix, t.size) && Wf(t.left) && Wf(t.right)
  }

  function HashOf(H: Hasher, t: Tree): Hash
    requires Wf(t)
  {
    match t
    case Empty => ZERO_HASH
    case Stub(h) => h
    case Leaf(k, v) => H(LeafInput(k, H(v)))
    case Sealed(k, d) => H(LeafInput(k, d))
    case Fork(p, n, l, r) => H(ForkInput(p, n, HashOf(H, l), HashOf(H, r)))
  }

  /** Every string that is hashed to obtain the digest of t. */
  ghost function Inputs(H: Hasher, t: Tree): set<Bytes>
    requires Wf(t)
  {
    match t
    case Empty => {}
    case Stub(_) => {}
    case Leaf(k, v) => {v, LeafInput(k, H(v))}
    case Sealed(k, d) => {LeafInput(k, d)}
    case Fork(p, n, l, r) =>
      {ForkInput(p, n, HashOf(H, l), HashOf(H, r))} + Inputs(H, l) + Inputs(H, r)
  }

  ghost predicate Broken(H: Hasher, a: set<Bytes>, b: set<Bytes>) {
    || (exists x, y :: x in a && y in b && x != y && H(x) == H(y))
    || (exists x :: x in a + b && H(x) == ZERO_HASH)
  }

  lemma ForkInputInjective(p: Bytes, n: nat, l: Hash, r: Hash, p': Bytes, n': nat, l': Hash, r': Hash)
    requires WfPrefix(p, n) && WfPrefix(p', n')
    requires ForkInput(p, n, l, r) == ForkInput(p', n', l', r')
    ensures n == n' && Used(p, n) == Used(p', n') && l == l' && r == r'
  {
    var a, b := ForkInput(p, n, l, r), ForkInput(p', n', l', r');
    assert a[0] == b[0];
    var s := if n == 0 then 1 else 3 + |Used(p, n)|;
    assert n == n' by {
      if n != 0 { assert a[1] == b[1] && a[2] == b[2]; }
    }
    assert l == a[s..s + 32] && l' == b[s..s + 32];
    assert r == a[s + 32..s + 64] && r' == b[s + 32..s + 64];
    if n != 0 {
      assert Used(p, n) == a[3..s] && Used(p', n') == b[3..s];
    }
  }

  lemma LeafInputInjective(k: Hash, d: Hash, k': Hash, d': Hash)
    requires LeafInput(k, d) == LeafInput(k', d')
    ensures k == k' && d == d'
  {
    assert k == LeafInput(k, d)[1..33] && k' == LeafInput(k', d')[1..33];
    assert d == LeafInput(k, d)[33..65] && d' == LeafInput(k', d')[33..65];
  }

  // ----- What a tree says about a key

  ghost function Resolve(t: Tree, key: Hash, depth: nat): Answer
    requires Wf(t) && depth <= 256
  {
    match t
    case Empty => Known(None)
    case Stub(_) => Hidden
    case Leaf(k, v) => Known(if k == key then Some(v) else None)
    case Sealed(k, _) => if k == key then Hidden else Known(None)
    case Fork(p, n, l, r) =>
      if Matches(p, n, key, depth) && depth + n < 256 then
        Resolve(if Bit(key, depth + n) then r else l, key, depth + n + 1)
      else Known(None)
  }

  predicate Complete(t: Tree) {
    match t
    case Empty => true
    case Leaf(_, _) => true
    case Fork(_, _, l, r) => Complete(l) && Complete(r)
    case _ => false
  }

  lemma {:induction false} CompleteResolves(t: Tree, key: Hash, depth: nat)
    requires Wf(t) && Complete(t) && depth <= 256
    ensures Resolve(t, key, depth).Known?
  {
    if t.Fork? && Matches(t.prefix, t.size, key, depth) && depth + t.size < 256 {
      CompleteResolves(if Bit(key, depth + t.size) then t.right else t.left, key, depth + t.size + 1);
    }
  }

  lemma MatchesUsed(p: Bytes, p': Bytes, n: nat, key: Hash, depth: nat)
    requires WfPrefix(p, n) && WfPrefix(p', n) && Used(p, n) == Used(p', n) && depth <= 256
    ensures Matches(p, n, key, depth) == Matches(p', n, key, depth)
  {
    forall k | 0 <= k < n ensures Bit(p, k) == Bit(p', k) {
      assert p[k / 8] == Used(p, n)[k / 8] == Used(p', n)[k / 8] == p'[k / 8];
    }
  }

  ghost function TopInput(H: Hasher, t: Tree): Bytes
    requires Wf(t) && !t.Empty? && !t.Stub?
    ensures HashOf(H, t) == H(TopInput(H, t)) && TopInput(H, t) in Inputs(H, t)
  {
    match t
    case Leaf(k, v) => LeafInput(k, H(v))
    case Sealed(k, d) => LeafInput(k, d)
    case Fork(p, n, l, r) => ForkInput(p, n, HashOf(H, l), HashOf(H, r))
  }

  lemma SameTop(H: Hasher, a: Tree, b: Tree)
    requires Wf(a) && Wf(b) && !a.Empty? && !a.Stub? && !b.Empty? && !b.Stub?
    requires TopInput(H, a) == TopInput(H, b)
    ensures a.Fork? == b.Fork?
    ensures a.Fork? ==>
      && a.size == b.size && Used(a.prefix, a.size) == Used(b.prefix, b.size)
      && HashOf(H, a.left) == HashOf(H, b.left) && HashOf(H, a.right) == HashOf(H, b.right)
  {
    assert TopInput(H, a)[0] == TopInput(H, b)[0];
    if a.Fork? && b.Fork? {
      ForkInputInjective(a.prefix, a.size, HashOf(H, a.left), HashOf(H, a.right),
                         b.prefix, b.size, HashOf(H, b.left), HashOf(H, b.right));
    }
  }

  /** Two openings of one digest never disagree about a key both of them decide. */
  lemma {:induction false} Agreement(H: Hasher, a: Tree, b: Tree, key: Hash, depth: nat)
    requires Wf(a) && Wf(b) && depth <= 256 && HashOf(H, a) == HashOf(H, b)
    requires Resolve(a, key, depth).Known? && Resolve(b, key, depth).Known?
    ensures Resolve(a, key, depth) == Resolve(b, key, depth) || Broken(H, Inputs(H, a), Inputs(H, b))
    decreases a
  {
    hide Matches, Bit, ForkInput, LeafInput, TopInput, Used, WfPrefix;
    if a.Empty? || b.Empty? {
      if !a.Empty? { assert H(TopInput(H, a)) == ZERO_HASH; }
      if !b.Empty? { assert H(TopInput(H, b)) == ZERO_HASH; }
    } else if TopInput(H, a) == TopInput(H, b) {
      SameTop(H, a, b);
      if a.Fork? {
        ForkAgreement(H, a, b, key, depth);
      } else {
        LeafAgreement(H, a, b, key, depth);
      }
    }
  }

  lemma {:induction false} ForkAgreement(H: Hasher, a: Tree, b: Tree, key: Hash, depth: nat)
    requires a.Fork? && b.Fork? && Wf(a) && Wf(b) && depth <= 256
    requires a.size == b.size && Used(a.prefix, a.size) == Used(b.prefix, b.size)
    requires HashOf(H, a.left) == HashOf(H, b.left) && HashOf(H, a.right) == HashOf(H, b.right)
    requires Resolve(a, key, depth).Known? && Resolve(b, key, depth).Known?
    ensures Resolve(a, key, depth) == Resolve(b, key, depth) || Broken(H, Inputs(H, a), Inputs(H, b))
    decreases a, 0
  {
    hide Matches, Bit, ForkInput, LeafInput, TopInput, Used, WfPrefix;
    MatchesUsed(a.prefix, b.prefix, a.size, key, depth);
    if Matches(a.prefix, a.size, key, depth) && depth + a.size < 256 {
      if Bit(key, depth + a.size) {
        Agreement(H, a.right, b.right, key, depth + a.size + 1);
      } else {
        Agreement(H, a.left, b.left, key, depth + a.size + 1);
      }
    }
  }

  lemma LeafAgreement(H: Hasher, a: Tree, b: Tree, key: Hash, depth: nat)
    requires (a.Leaf? || a.Sealed?) && (b.Leaf? || b.Sealed?) && depth <= 256
    requires TopInput(H, a) == TopInput(H, b)
    requires Resolve(a, key, depth).Known? && Resolve(b, key, depth).Known?
    ensures Resolve(a, key, depth) == Resolve(b, key, depth) || Broken(H, Inputs(H, a), Inputs(H, b))
  {
    var da := if a.Leaf? then H(a.value) else a.digest;
    var db := if b.Leaf? then H(b.value) else b.digest;
    LeafInputInjective(a.key, da, b.key, db);
    if a.Leaf? && b.Leaf? && a.value != b.value {
      assert a.value in Inputs(H, a) && b.value in Inputs(H, b);
    }
  }

  // ----- Proofs

  /** The asserts at the head of the verifier, and the sizes the decoder fixes. */
  predicate WfTail(tail: Tail) {
    match tail
    case Short(p, n, _, _) => n != 0 && WfPrefix(p, n)
    case Exists(v) => |v| <= MAX_DATA_SIZE
    case _ => true
  }

  predicate WfNodes(nodes: seq<Node>) {
    forall n :: n in nodes ==> WfPrefix(n.prefix, n.size)
  }

  predicate WfProof(p: Proof) {
    p.depth <= 256 && |p.nodes| <= 256 && WfNodes(p.nodes) && WfTail(p.tail)
  }

  /** The number of key bits that a run of nodes accounts for. */
  function Span(nodes: seq<Node>): nat {
    if nodes == [] then 0 else nodes[0].size + 1 + Span(nodes[1..])
  }

  function TailTree(key: Hash, tail: Tail): (t: Tree)
    requires WfTail(tail)
    ensures Wf(t)
  {
    match tail
    case Deadend => Empty
    case Short(p, n, l, r) => Fork(p, n, Stub(l), Stub(r))
    case Collision(k, d) => Sealed(k, d)
    case Exists(v) => Leaf(key, v)
  }

  /** The part of the tree that a proof opens for a key, from the given depth down. */
  function Opened(key: Hash, nodes: seq<Node>, depth: nat, tail: Tail): (t: Tree)
    requires WfNodes(nodes) && WfTail(tail) && depth + Span(nodes) <= 256
    ensures Wf(t)
  {
    if nodes == [] then TailTree(key, tail)
    else
      var n := nodes[0];
      var rest := Opened(key, nodes[1..], depth + n.size + 1, tail);
      if Bit(key, depth + n.size) then Fork(n.prefix, n.size, Stub(n.sibling), rest)
      else Fork(n.prefix, n.size, rest, Stub(n.sibling))
  }

  /** Each node's prefix lies on the path of the key. */
  ghost predicate OnPath(key: Hash, nodes: seq<Node>, depth: nat)
    requires WfNodes(nodes) && depth + Span(nodes) <= 256
  {
    nodes == [] ||
    (Matches(nodes[0].prefix, nodes[0].size, key, depth) &&
     OnPath(key, nodes[1..], depth + nodes[0].size + 1))
  }

  ghost predicate TailRefutes(key: Hash, tail: Tail, depth: nat)
    requires WfTail(tail) && depth <= 256
  {
    match tail
    case Short(p, n, _, _) => !Matches(p, n, key, depth)
    case Collision(k, _) => k != key
    case _ => true
  }

  function Claim(tail: Tail): Option<Bytes> {
    if tail.Exists? then Some(tail.value) else None
  }

  /** A proof opens `root` along the whole path of the key. */
  ghost predicate Opens(H: Hasher, root: Hash, key: Hash, p: Proof)
    requires WfProof(p)
  {
    && Span(p.nodes) == p.depth
    && OnPath(key, p.nodes, 0)
    && TailRefutes(key, p.tail, p.depth)
    && HashOf(H, Opened(key, p.nodes, 0, p.tail)) == root
  }

  lemma {:induction false} OpenedResolves(key: Hash, nodes: seq<Node>, depth: nat, tail: Tail)
    requires WfNodes(nodes) && WfTail(tail) && depth + Span(nodes) <= 256
    requires OnPath(key, nodes, depth) && TailRefutes(key, tail, depth + Span(nodes))
    ensures Resolve(Opened(key, nodes, depth, tail), key, depth) == Known(Claim(tail))
    decreases nodes
  {
    hide Matches, Bit;
    if nodes != [] {
      OpenedResolves(key, nodes[1..], depth + nodes[0].size + 1, tail);
    }
  }

  /** The name state wraps the resource: one length octet, the name, a length, the resource. */
  function ParseNamestate(data: Bytes): (r: Option<Bytes>)
    ensures r.Some? ==> |data| <= MAX_DATA_SIZE && |r.value| <= |data| - 3
  {
    if |data| > MAX_DATA_SIZE || |data| < 1 then None
    else
      var k: nat := 1 + data[0] as int;
      if |data| < k + 2 then None
      else
        var size: nat := data[k] as int + 256 * (data[k + 1] as int);
        if |data| < k + 2 + size then None else Some(data[k + 2..k + 2 + size])
  }

  /** A name state as it is laid out. */
  function Namestate(name: Bytes, resource: Bytes): Bytes
    requires |name| < 256 && |resource| < 65536
  {
    [|name|] + name + [|resource| % 256, |resource| / 256] + resource
  }

  lemma ParsesLayout(name: Bytes, resource: Bytes, rest: Bytes)
    requires |name| < 256 && |resource| < 65536 && |Namestate(name, resource) + rest| <= MAX_DATA_SIZE
    ensures ParseNamestate(Namestate(name, resource) + rest) == Some(resource)
  {
    var data, k := Namestate(name, resource) + rest, 1 + |name|;
    assert data[0] as int == |name|;
    assert data[k] as int == |resource| % 256 && data[k + 1] as int == |resource| / 256;
    assert data[k + 2..k + 2 + |resource|] == resource;
  }

  lemma LayoutParsed(data: Bytes) returns (name: Bytes, rest: Bytes)
    requires ParseNamestate(data).Some?
    ensures var resource := ParseNamestate(data).value;
      |name| < 256 && |resource| < 65536 && data == Namestate(name, resource) + rest
  {
    var resource := ParseNamestate(data).value;
    var k := 1 + data[0] as int;
    name, rest := data[1..k], data[k + 2 + |resource|..];
    assert [data[0]] + data[1..k] + data[k..k + 2] + data[k + 2..k + 2 + |resource|] + rest == data;
    assert data[k..k + 2] == [|resource| % 256, |resource| / 256];
  }

  /** Exactly the well laid out states of at most 668 octets parse, and give their resource. */
  lemma NamestateParses(data: Bytes, resource: Bytes)
    ensures ParseNamestate(data) == Some(resource) <==>
      && |data| <= MAX_DATA_SIZE && |resource| < 65536
      && exists name: Bytes, rest: Bytes :: |name| < 256 && data == Namestate(name, resource) + rest
  {
    if ParseNamestate(data) == Some(resource) {
      var name, rest := LayoutParsed(data);
    }
    forall name: Bytes, rest: Bytes | |data| <= MAX_DATA_SIZE && |resource| < 65536 && |name| < 256
        && data == Namestate(name, resource) + rest
      ensures ParseNamestate(data) == Some(resource)
    {
      ParsesLayout(name, resource, rest);
    }
  }

  ghost predicate NodeOk(key: Hash, p: Proof, i: nat)
    requires WfProof(p) && i < |p.nodes|
  {
    var at := p.depth - Span(p.nodes[i..]);
    at >= 0 && Matches(p.nodes[i].prefix, p.nodes[i].size, key, at)
  }

  ghost predicate FailsAt(key: Hash, p: Proof, i: nat, code: Code)
    requires WfProof(p) && i < |p.nodes|
  {
    var at := p.depth - Span(p.nodes[i..]);
    && (forall j :: i < j < |p.nodes| ==> NodeOk(key, p, j))
    && (if code == NegDepth then at < 0 else at >= 0 && !NodeOk(key, p, i))
  }

  /** The digest the climb starts from, or the reason the tail is refused. */
  method LeafHash(H: Hasher, key: Hash, p: Proof) returns (code: Code, leaf: Hash)
    requires WfProof(p)
    ensures code == SamePath <==> p.tail.Short? && !TailRefutes(key, p.tail, p.depth)
    ensures code == SameKey <==> p.tail.Collision? && !TailRefutes(key, p.tail, p.depth)
    ensures code in {ProofOk, SamePath, SameKey}
    ensures code == ProofOk ==> leaf == HashOf(H, Opened(key, [], p.depth, p.tail))
  {
    hide Matches, Bit;
    match p.tail {
      case Deadend =>
        return ProofOk, ZERO_HASH;
      case Short(prefix, size, left, right) =>
        var same := Has(prefix, size, key, p.depth);
        if same {
          return SamePath, ZERO_HASH;
        }
        return ProofOk, H(ForkInput(prefix, size, left, right));
      case Collision(nxKey, nxHash) =>
        if nxKey == key {
          return SameKey, ZERO_HASH;
        }
        return ProofOk, H(LeafInput(nxKey, nxHash));
      case Exists(value) =>
        return ProofOk, H(LeafInput(key, H(value)));
    }
  }

  lemma OpenedStep(H: Hasher, key: Hash, nodes: seq<Node>, depth: nat, tail: Tail)
    requires WfNodes(nodes) && WfTail(tail) && nodes != [] && depth + Span(nodes) <= 256
    ensures
      var n := nodes[0];
      var rest := HashOf(H, Opened(key, nodes[1..], depth + n.size + 1, tail));
      HashOf(H, Opened(key, nodes, depth, tail)) ==
        if Bit(key, depth + n.size) then H(ForkInput(n.prefix, n.size, n.sibling, rest))
        else H(ForkInput(n.prefix, n.size, rest, n.sibling))
  {
    hide Bit, ForkInput;
  }

  lemma AtNode(key: Hash, p: Proof, i: nat, depth: nat)
    requires WfProof(p) && i < |p.nodes| && depth == p.depth - Span(p.nodes[i + 1..])
    requires forall j :: i < j < |p.nodes| ==> NodeOk(key, p, j)
    ensures Span(p.nodes[i..]) == p.nodes[i].size + 1 + Span(p.nodes[i + 1..])
    ensures depth < p.nodes[i].size + 1 ==> FailsAt(key, p, i, NegDepth) && Span(p.nodes) > p.depth
    ensures depth >= p.nodes[i].size + 1 ==>
      var on := Matches(p.nodes[i].prefix, p.nodes[i].size, key, depth - p.nodes[i].size - 1);
      && on == NodeOk(key, p, i)
      && (!on ==> FailsAt(key, p, i, PathMismatch) && !(Span(p.nodes) == p.depth && OnPath(key, p.nodes, 0)))
  {
    hide Matches, Bit;
    assert p.nodes[i..][1..] == p.nodes[i + 1..];
    if depth < p.nodes[i].size + 1 {
      NegDepthRefutes(key, p, i);
    } else if !NodeOk(key, p, i) {
      MismatchRefutes(key, p, i);
    }
  }

  /** The loop from the leaf to the root, one node per round. */
  method Climb(H: Hasher, key: Hash, p: Proof, leaf: Hash) returns (code: Code, next: Hash, depth: nat)
    requires WfProof(p) && leaf == HashOf(H, Opened(key, [], p.depth, p.tail))
    ensures code in {ProofOk, NegDepth, PathMismatch}
    ensures code != ProofOk ==>
      && (exists i :: 0 <= i < |p.nodes| && FailsAt(key, p, i, code))
      && !(Span(p.nodes) == p.depth && OnPath(key, p.nodes, 0))
    ensures code == ProofOk ==>
      && depth == p.depth - Span(p.nodes) && OnPath(key, p.nodes, depth)
      && next == HashOf(H, Opened(key, p.nodes, depth, p.tail))
      && forall j :: 0 <= j < |p.nodes| ==> NodeOk(key, p, j)
  {
    hide Matches, Bit, ForkInput, LeafInput, HashOf, Opened, WfPrefix, FailsAt, NodeOk;
    next, depth := leaf, p.depth;
    var i := |p.nodes|;
    assert p.nodes[i..] == [];
    while i > 0
      invariant 0 <= i <= |p.nodes|
      invariant depth == p.depth - Span(p.nodes[i..])
      invariant next == HashOf(H, Opened(key, p.nodes[i..], depth, p.tail))
      invariant OnPath(key, p.nodes[i..], depth)
      invariant forall j :: i <= j < |p.nodes| ==> NodeOk(key, p, j)
    {
      var item := p.nodes[i - 1];
      assert p.nodes[i - 1..][1..] == p.nodes[i..];
      AtNode(key, p, i - 1, depth);
      if depth < item.size + 1 {
        return NegDepth, next, depth;
      }
      depth := depth - 1;
      if Bit(key, depth) {
        next := H(ForkInput(item.prefix, item.size, item.sibling, next));
      } else {
        next := H(ForkInput(item.prefix, item.size, next, item.sibling));
      }
      depth := depth - item.size;
      OpenedStep(H, key, p.nodes[i - 1..], depth, p.tail);
      var on := Has(item.prefix, item.size, key, depth);
      if !on {
        return PathMismatch, next, depth;
      }
      i := i - 1;
    }
    assert p.nodes[0..] == p.nodes;
    code := ProofOk;
  }

  /**
   * The verifier.  It climbs from the leaf to the root, and it accepts exactly the
   * proofs that open the root; each rejection names its cause.
   */
  method Verify(H: Hasher, root: Hash, key: Hash, p: Proof)
    returns (code: Code, exists_: bool, data: Bytes)
    requires WfProof(p)
    ensures code == ProofOk <==>
      Opens(H, root, key, p) && (p.tail.Exists? ==> ParseNamestate(p.tail.value).Some?)
    ensures code == ProofOk ==> exists_ == p.tail.Exists?
    ensures code == ProofOk && exists_ ==> Some(data) == ParseNamestate(p.tail.value)
    ensures code == SamePath <==> p.tail.Short? && !TailRefutes(key, p.tail, p.depth)
    ensures code == SameKey <==> p.tail.Collision? && !TailRefutes(key, p.tail, p.depth)
    ensures code == NegDepth || code == PathMismatch ==>
      exists i :: 0 <= i < |p.nodes| && FailsAt(key, p, i, code)
    ensures code == TooDeep ==> Span(p.nodes) < p.depth && forall j :: 0 <= j < |p.nodes| ==> NodeOk(key, p, j)
    ensures code == HashMismatch ==>
      Span(p.nodes) == p.depth && OnPath(key, p.nodes, 0) && HashOf(H, Opened(key, p.nodes, 0, p.tail)) != root
    ensures code == Encoding <==>
      Opens(H, root, key, p) && p.tail.Exists? && ParseNamestate(p.tail.value).None?
  {
    hide Matches, Bit, ForkInput, LeafInput, HashOf, Opened, ParseNamestate, FailsAt, NodeOk;
    exists_, data := false, [];
    var next: Hash;
    code, next := LeafHash(H, key, p);
    if code != ProofOk {
      return;
    }
    var depth;
    code, next, depth := Climb(H, key, p, next);
    if code != ProofOk {
      return;
    }
    if depth != 0 {
      return TooDeep, false, [];
    }
    if next != root {
      return HashMismatch, false, [];
    }
    if p.tail.Exists? {
      var res := ParseNamestate(p.tail.value);
      if res.None? {
        return Encoding, false, [];
      }
      return ProofOk, true, res.value;
    }
  }

  lemma {:induction false} SpanSplit(nodes: seq<Node>, i: nat)
    requires i <= |nodes|
    ensures Span(nodes) == Span(nodes[..i]) + Span(nodes[i..])
  {
    if i == 0 {
      assert nodes[0..] == nodes;
    } else {
      SpanSplit(nodes[1..], i - 1);
      assert nodes[..i][1..] == nodes[1..][..i - 1];
      assert nodes[1..][i - 1..] == nodes[i..];
    }
  }

  lemma NegDepthRefutes(key: Hash, p: Proof, i: nat)
    requires WfProof(p) && i < |p.nodes| && FailsAt(key, p, i, NegDepth)
    ensures Span(p.nodes) > p.depth
  {
    SpanSplit(p.nodes, i);
  }

  lemma {:induction false} OnPathAt(key: Hash, nodes: seq<Node>, depth: nat, i: nat)
    requires WfNodes(nodes) && depth + Span(nodes) <= 256 && OnPath(key, nodes, depth) && i < |nodes|
    ensures depth + Span(nodes[..i]) <= 256
    ensures Matches(nodes[i].prefix, nodes[i].size, key, depth + Span(nodes[..i]))
    decreases i
  {
    hide Matches, Bit;
    SpanSplit(nodes, i);
    if i > 0 {
      OnPathAt(key, nodes[1..], depth + nodes[0].size + 1, i - 1);
      assert nodes[..i][1..] == nodes[1..][..i - 1];
    }
  }

  lemma MismatchRefutes(key: Hash, p: Proof, i: nat)
    requires WfProof(p) && i < |p.nodes| && FailsAt(key, p, i, PathMismatch)
    ensures !(Span(p.nodes) == p.depth && OnPath(key, p.nodes, 0))
  {
    hide Matches, Bit;
    SpanSplit(p.nodes, i);
    if Span(p.nodes) == p.depth && OnPath(key, p.nodes, 0) {
      OnPathAt(key, p.nodes, 0, i);
    }
  }

  // ----- Theorems

  /** An accepted proof tells the truth about every tree with that root. */
  lemma Soundness(H: Hasher, t: Tree, key: Hash, p: Proof)
    requires Wf(t) && Complete(t) && WfProof(p) && Opens(H, HashOf(H, t), key, p)
    ensures
      || Resolve(t, key, 0) == Known(Claim(p.tail))
      || Broken(H, Inputs(H, t), Inputs(H, Opened(key, p.nodes, 0, p.tail)))
  {
    CompleteResolves(t, key, 0);
    OpenedResolves(key, p.nodes, 0, p.tail);
    Agreement(H, t, Opened(key, p.nodes, 0, p.tail), key, 0);
  }

  /** No root lets two accepted proofs make different claims about one key. */
  lemma NonEquivocation(H: Hasher, root: Hash, key: Hash, p: Proof, q: Proof)
    requires WfProof(p) && WfProof(q) && Opens(H, root, key, p) && Opens(H, root, key, q)
    ensures
      || Claim(p.tail) == Claim(q.tail)
      || Broken(H, Inputs(H, Opened(key, p.nodes, 0, p.tail)), Inputs(H, Opened(key, q.nodes, 0, q.tail)))
  {
    OpenedResolves(key, p.nodes, 0, p.tail);
    OpenedResolves(key, q.nodes, 0, q.tail);
    Agreement(H, Opened(key, p.nodes, 0, p.tail), Opened(key, q.nodes, 0, q.tail), key, 0);
  }

  /** Forks of a tree in use have bits left to branch on, and values fit in a proof. */
  ghost predicate Placed(t: Tree, depth: nat) {
    match t
    case Leaf(_, v) => |v| <= MAX_DATA_SIZE
    case Fork(p, n, l, r) =>
      depth + n < 256 && Placed(l, depth + n + 1) && Placed(r, depth + n + 1)
    case _ => true
  }

  /** The honest proof for a key: the path down to where the key is decided. */
  ghost function Prove(H: Hasher, t: Tree, key: Hash, depth: nat): (r: (seq<Node>, Tail))
    requires Wf(t) && Complete(t) && Placed(t, depth) && depth <= 256
    ensures WfNodes(r.0) && WfTail(r.1) && depth + Span(r.0) <= 256 && |r.0| <= Span(r.0)
  {
    match t
    case Empty => ([], Deadend)
    case Leaf(k, v) => ([], if k == key then Exists(v) else Collision(k, H(v)))
    case Fork(p, n, l, r) =>
      if !Matches(p, n, key, depth) then ([], Short(p, n, HashOf(H, l), HashOf(H, r)))
      else
        var right := Bit(key, depth + n);
        var rest := Prove(H, if right then r else l, key, depth + n + 1);
        ([Node(p, n, HashOf(H, if right then l else r))] + rest.0, rest.1)
  }

  /** The nodes and tail open t along the path of the key and state what t says. */
  ghost predicate ProvenBy(H: Hasher, t: Tree, key: Hash, depth: nat, nodes: seq<Node>, tail: Tail)
    requires Wf(t) && WfNodes(nodes) && WfTail(tail) && depth + Span(nodes) <= 256
  {
    && OnPath(key, nodes, depth)
    && TailRefutes(key, tail, depth + Span(nodes))
    && HashOf(H, Opened(key, nodes, depth, tail)) == HashOf(H, t)
    && Known(Claim(tail)) == Resolve(t, key, depth)
  }

  lemma ProvenStep(H: Hasher, t: Tree, key: Hash, depth: nat, nodes: seq<Node>, tail: Tail)
    requires t.Fork? && Wf(t) && depth + t.size < 256 && Matches(t.prefix, t.size, key, depth)
    requires nodes != [] && WfNodes(nodes) && WfTail(tail) && depth + Span(nodes) <= 256
    requires nodes[0].prefix == t.prefix && nodes[0].size == t.size
    requires nodes[0].sibling == HashOf(H, if Bit(key, depth + t.size) then t.left else t.right)
    requires
      var sub := if Bit(key, depth + t.size) then t.right else t.left;
      ProvenBy(H, sub, key, depth + t.size + 1, nodes[1..], tail)
    ensures ProvenBy(H, t, key, depth, nodes, tail)
  {
    hide Matches, Bit, ForkInput, LeafInput, TailRefutes, Opened;
    OpenedStep(H, key, nodes, depth, tail);
  }

  lemma ProvenBase(H: Hasher, t: Tree, key: Hash, depth: nat)
    requires Wf(t) && Complete(t) && Placed(t, depth) && depth <= 256
    requires t.Fork? ==> !Matches(t.prefix, t.size, key, depth)
    ensures var (nodes, tail) := Prove(H, t, key, depth); ProvenBy(H, t, key, depth, nodes, tail)
  {
    hide Matches, Bit, ForkInput, LeafInput;
    var (nodes, tail) := Prove(H, t, key, depth);
    var o := TailTree(key, tail);
    assert Opened(key, nodes, depth, tail) == o;
    if t.Fork? {
      assert HashOf(H, o.left) == HashOf(H, t.left) && HashOf(H, o.right) == HashOf(H, t.right);
    }
  }

  lemma {:induction false} ProveOpens(H: Hasher, t: Tree, key: Hash, depth: nat)
    requires Wf(t) && Complete(t) && Placed(t, depth) && depth <= 256
    ensures var (nodes, tail) := Prove(H, t, key, depth); ProvenBy(H, t, key, depth, nodes, tail)
    decreases t
  {
    hide Matches, Bit, ForkInput, LeafInput, ProvenBy;
    if !(t.Fork? && Matches(t.prefix, t.size, key, depth)) {
      ProvenBase(H, t, key, depth);
    } else {
      var sub := if Bit(key, depth + t.size) then t.right else t.left;
      ProveOpens(H, sub, key, depth + t.size + 1);
      var (nodes, tail) := Prove(H, t, key, depth);
      assert nodes[1..] == Prove(H, sub, key, depth + t.size + 1).0;
      ProvenStep(H, t, key, depth, nodes, tail);
    }
  }

  /** Every tree in use has an accepted proof for every key, and it states the lookup. */
  lemma Completeness(H: Hasher, t: Tree, key: Hash)
    requires Wf(t) && Complete(t) && Placed(t, 0)
    ensures exists p :: WfProof(p) && Opens(H, HashOf(H, t), key, p) && Known(Claim(p.tail)) == Resolve(t, key, 0)
  {
    ProveOpens(H, t, key, 0);
    var (nodes, tail) := Prove(H, t, key, 0);
    assert WfProof(Proof(Span(nodes), nodes, tail));
  }
}
