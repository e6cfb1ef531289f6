/** `get_co_counts`: counts how often two tags occur in the same post. Each
    post is a list of tag ids; every pair of positions `i < j` of a post adds
    one to the cell `(a, b)` and one to the cell `(b, a)` of the tag-by-tag
    count matrix. The posts are cut into contiguous chunks, each chunk is
    counted into a map that becomes a `CSR`, and the chunk matrices are added
    into an empty matrix one after the other. The chunks run one after the
    other here. */
module CoCounts {
  import opened Wrappers
  import opened Rows
  import opened Layout
  import opened CsrMatrix
  import Tags

  /** `N_CHUNCK`: the chunk size is the number of posts divided by this, plus one. */
  const NChunk: nat := 12

  /** A post: the ids of its tags, in order, possibly repeated. */
  type Post = seq<nat>

  type Key = (nat, nat)

  /** The tags of a post that makes at least one pair are ids below `n`. A
      post with fewer than two tags increments nothing, so its ids never
      reach the map. */
  predicate PairedBelow(p: Post, n: nat) {
    |p| >= 2 ==> forall t | t in p :: t < n
  }

  /** The count a map holds for a key; a missing key counts as zero, as
      `entry(..).or_insert(0.0)` does. */
  function Get(m: map<Key, int>, k: Key): int {
    if k in m then m[k] else 0
  }

  // ---------------------------------------------------------------------------
  // What one post contributes
  // ---------------------------------------------------------------------------

  /** How often `x` occurs in `s`. */
  function Occ(s: Post, x: nat): nat {
    multiset(s)[x]
  }

  /** What row `i` of the pair loops adds to key `(a, b)` for the later
      positions `i < j' < j`: one per `(p[i], p[j']) == (a, b)` and one per
      `(p[j'], p[i]) == (a, b)`. */
  function RowPart(p: Post, i: nat, j: nat, a: nat, b: nat): nat
    requires i < |p| && i + 1 <= j <= |p|
  {
    (if p[i] == a then Occ(p[i + 1..j], b) else 0) + (if p[i] == b then Occ(p[i + 1..j], a) else 0)
  }

  /** The total that post `p` adds to key `(a, b)`: the row of its first
      position, then the rest of the post. */
  function PairCount(p: Post, a: nat, b: nat): nat {
    if p == [] then 0 else RowPart(p, 0, |p|, a, b) + PairCount(p[1..], a, b)
  }

  /** The keys the pair loops increment for post `p`, in the order they
      increment them. */
  function PairKeys(p: Post): seq<Key> {
    if p == [] then [] else RowKeys(p[0], p[1..]) + PairKeys(p[1..])
  }

  function RowKeys(x: nat, rest: Post): seq<Key> {
    if rest == [] then [] else [(x, rest[0]), (rest[0], x)] + RowKeys(x, rest[1..])
  }

  /** A post of `m` tags makes `m * (m - 1)` increments. */
  lemma {:induction false} PairKeysLength(p: Post)
    ensures |PairKeys(p)| == |p| * (|p| - 1)
  {
    if p != [] {
      PairKeysLength(p[1..]);
      RowKeysLength(p[0], p[1..]);
    }
  }

  lemma {:induction false} RowKeysLength(x: nat, rest: Post)
    ensures |RowKeys(x, rest)| == 2 * |rest|
  {
    if rest != [] {
      RowKeysLength(x, rest[1..]);
    }
  }

  /** The increments of row `x` hit key `(a, b)` as often as `RowPart` says. */
  lemma {:induction false} RowKeysCount(x: nat, rest: Post, a: nat, b: nat)
    ensures multiset(RowKeys(x, rest))[(a, b)]
      == (if x == a then Occ(rest, b) else 0) + (if x == b then Occ(rest, a) else 0)
  {
    if rest != [] {
      RowKeysCount(x, rest[1..], a, b);
      OccCons(rest, a);
      OccCons(rest, b);
      MultisetAppend([(x, rest[0]), (rest[0], x)], RowKeys(x, rest[1..]), (a, b));
    }
  }

  /** The map the pair loops build for one post is the histogram of the
      keys they increment. */
  lemma {:induction false} PairKeysCount(p: Post, a: nat, b: nat)
    ensures multiset(PairKeys(p))[(a, b)] == PairCount(p, a, b)
  {
    if p != [] {
      var t := p[1..];
      PairKeysCount(t, a, b);
      RowKeysCount(p[0], t, a, b);
      PairCountUnfold(p, a, b);
      MultisetAppend(RowKeys(p[0], t), PairKeys(t), (a, b));
    }
  }

  lemma MultisetAppend<T>(xs: seq<T>, ys: seq<T>, k: T)
    ensures multiset(xs + ys)[k] == multiset(xs)[k] + multiset(ys)[k]
  {
  }

  lemma OccCons(s: Post, x: nat)
    requires s != []
    ensures Occ(s, x) == (if s[0] == x then 1 else 0) + Occ(s[1..], x)
  {
    assert s == [s[0]] + s[1..];
  }

  /** The counts of one post are symmetric. */
  lemma {:induction false} PairCountSymmetric(p: Post, a: nat, b: nat)
    ensures PairCount(p, a, b) == PairCount(p, b, a)
  {
    if p != [] {
      PairCountSymmetric(p[1..], a, b);
    }
  }

  /** Peeling the first position off a post: its row meets every later
      occurrence of the other tag of the key. */
  lemma PairCountUnfold(p: Post, a: nat, b: nat)
    requires p != []
    ensures Occ(p, a) == (if p[0] == a then 1 else 0) + Occ(p[1..], a)
    ensures Occ(p, b) == (if p[0] == b then 1 else 0) + Occ(p[1..], b)
    ensures PairCount(p, a, b)
      == (if p[0] == a then Occ(p[1..], b) else 0) + (if p[0] == b then Occ(p[1..], a) else 0)
         + PairCount(p[1..], a, b)
  {
    OccCons(p, a);
    OccCons(p, b);
    assert p[1..|p|] == p[1..];
  }

  /** Closed form off the diagonal: two different tags get the product of
      their numbers of occurrences. */
  lemma {:induction false} PairCountOffDiagonal(p: Post, a: nat, b: nat)
    requires a != b
    ensures PairCount(p, a, b) == Occ(p, a) * Occ(p, b)
  {
    if p != [] {
      PairCountOffDiagonal(p[1..], a, b);
      PairCountUnfold(p, a, b);
      OneMore(Occ(p[1..], a), Occ(p[1..], b));
      OneMore(Occ(p[1..], b), Occ(p[1..], a));
    }
  }

  /** Closed form on the diagonal: a tag paired with itself gets two per
      pair of positions that both hold it, so it is touched only when the
      post lists it twice. */
  lemma {:induction false} PairCountDiagonal(p: Post, a: nat)
    ensures PairCount(p, a, a) == Occ(p, a) * (Occ(p, a) - 1)
  {
    if p != [] {
      PairCountDiagonal(p[1..], a);
      PairCountUnfold(p, a, a);
      OneMoreSquare(Occ(p[1..], a));
    }
  }

  lemma OneMore(x: int, y: int)
    ensures (1 + x) * y == y + x * y && y * (1 + x) == y + y * x
  {
  }

  lemma OneMoreSquare(x: int)
    ensures (1 + x) * (1 + x - 1) == 2 * x + x * (x - 1)
  {
  }

  // ---------------------------------------------------------------------------
  // What a list of posts contributes
  // ---------------------------------------------------------------------------

  /** The total the posts add to key `(a, b)`. */
  function Count(posts: seq<Post>, a: nat, b: nat): nat {
    if posts == [] then 0 else Count(posts[..|posts| - 1], a, b) + PairCount(posts[|posts| - 1], a, b)
  }

  lemma {:induction false} CountAppend(xs: seq<Post>, ys: seq<Post>, a: nat, b: nat)
    ensures Count(xs + ys, a, b) == Count(xs, a, b) + Count(ys, a, b)
    decreases |ys|
  {
    if ys != [] {
      var init := ys[..|ys| - 1];
      CountAppend(xs, init, a, b);
      assert (xs + ys)[..|xs + ys| - 1] == xs + init;
      assert (xs + ys)[|xs + ys| - 1] == ys[|ys| - 1];
    } else {
      assert xs + ys == xs;
    }
  }

  /** The total counts over any list of posts are symmetric. */
  lemma {:induction false} CountSymmetric(posts: seq<Post>, a: nat, b: nat)
    ensures Count(posts, a, b) == Count(posts, b, a)
  {
    if posts != [] {
      CountSymmetric(posts[..|posts| - 1], a, b);
      PairCountSymmetric(posts[|posts| - 1], a, b);
    }
  }

  // ---------------------------------------------------------------------------
  // Chunks
  // ---------------------------------------------------------------------------

  /** `slice::chunks(size)`: contiguous pieces of `size` elements, the last
      one possibly shorter; no piece for an empty slice. */
  function Chunks<T>(s: seq<T>, size: nat): (cs: seq<seq<T>>)
    requires size > 0
    ensures cs == [] <==> s == []
    ensures |s| <= |cs| * size && |cs| <= |s|
    ensures cs != [] ==> (|cs| - 1) * size < |s|
    decreases |s|
  {
    if s == [] then []
    else if |s| <= size then [s]
    else [s[..size]] + Chunks(s[size..], size)
  }

  function Flatten<T>(cs: seq<seq<T>>): seq<T> {
    if cs == [] then [] else Flatten(cs[..|cs| - 1]) + cs[|cs| - 1]
  }

  lemma {:induction false} FlattenAppend<T>(xs: seq<seq<T>>, ys: seq<seq<T>>)
    ensures Flatten(xs + ys) == Flatten(xs) + Flatten(ys)
    decreases |ys|
  {
    if ys != [] {
      var init, last := ys[..|ys| - 1], ys[|ys| - 1];
      FlattenAppend(xs, init);
      assert (xs + ys)[..|xs + ys| - 1] == xs + init;
      assert (xs + ys)[|xs + ys| - 1] == last;
      calc {
        Flatten(xs + ys);
        Flatten(xs + init) + last;
        (Flatten(xs) + Flatten(init)) + last;
        Flatten(xs) + (Flatten(init) + last);
      }
    } else {
      assert xs + ys == xs;
    }
  }

  /** Every post is in exactly one chunk: the chunks, put back together,
      are the posts in order. Every chunk holds between 1 and `size`
      posts, and all but the last hold exactly `size`. */
  lemma {:induction false} ChunksPartition<T>(s: seq<T>, size: nat)
    requires size > 0
    ensures Flatten(Chunks(s, size)) == s
    ensures forall k | 0 <= k < |Chunks(s, size)| :: 0 < |Chunks(s, size)[k]| <= size
    ensures forall k | 0 <= k < |Chunks(s, size)| - 1 :: |Chunks(s, size)[k]| == size
    ensures forall k, x | 0 <= k < |Chunks(s, size)| && x in Chunks(s, size)[k] :: x in s
    decreases |s|
  {
    if s != [] && |s| > size {
      var rest := Chunks(s[size..], size);
      ChunksPartition(s[size..], size);
      FlattenAppend([s[..size]], rest);
      assert Flatten([s[..size]]) == s[..size] by {
        assert [s[..size]][..0] == [];
      }
    } else if s != [] {
      assert Flatten([s]) == s by {
        assert [s][..0] == [];
      }
    }
  }

  /** The total over chunk after chunk is the total over the posts they
      partition. */
  lemma {:induction false} CountFlatten(cs: seq<seq<Post>>, a: nat, b: nat)
    ensures Count(Flatten(cs), a, b) == ChunkTotal(cs, a, b)
  {
    if cs != [] {
      CountFlatten(cs[..|cs| - 1], a, b);
      CountAppend(Flatten(cs[..|cs| - 1]), cs[|cs| - 1], a, b);
    }
  }

  /** The sum of the chunks' totals. */
  function ChunkTotal(cs: seq<seq<Post>>, a: nat, b: nat): nat {
    if cs == [] then 0 else ChunkTotal(cs[..|cs| - 1], a, b) + Count(cs[|cs| - 1], a, b)
  }

  // ---------------------------------------------------------------------------
  // The counting
  // ---------------------------------------------------------------------------

  /** The body of one chunk's worker: for every post of the chunk, every pair
      of positions `i < j` adds one to `(p[i], p[j])` and one to
      `(p[j], p[i])`. Every key of the map is a pair of tag ids and holds a
      positive count. */
  method CountChunk(chunk: seq<Post>, nTags: nat) returns (co: map<Key, int>)
    requires forall p | p in chunk :: PairedBelow(p, nTags)
    ensures forall k | k in co :: k.0 < nTags && k.1 < nTags && co[k] > 0
    ensures forall a: nat, b: nat :: Get(co, (a, b)) == Count(chunk, a, b)
  {
    co := map[];
    for k := 0 to |chunk|
      invariant forall key | key in co :: key.0 < nTags && key.1 < nTags && co[key] > 0
      invariant forall a: nat, b: nat :: Get(co, (a, b)) == Count(chunk[..k], a, b)
    {
      assert chunk[k] in chunk;
      co := CountPost(chunk[k], nTags, co);
      assert chunk[..k + 1][..k] == chunk[..k];
    }
    assert chunk[..|chunk|] == chunk;
  }

  /** The two inner loops for one post `p`: adds `PairCount(p, a, b)` to every
      key `(a, b)`. */
  method CountPost(p: Post, nTags: nat, co0: map<Key, int>) returns (co: map<Key, int>)
    requires PairedBelow(p, nTags)
    requires forall k | k in co0 :: k.0 < nTags && k.1 < nTags && co0[k] > 0
    ensures forall k | k in co :: k.0 < nTags && k.1 < nTags && co[k] > 0
    ensures forall a: nat, b: nat :: Get(co, (a, b)) == Get(co0, (a, b)) + PairCount(p, a, b)
  {
    co := co0;
    for i := 0 to |p|
      invariant forall key | key in co :: key.0 < nTags && key.1 < nTags && co[key] > 0
      invariant forall a: nat, b: nat ::
        Get(co, (a, b)) + PairCount(p[i..], a, b) == Get(co0, (a, b)) + PairCount(p, a, b)
    {
      co := CountRow(p, i, nTags, co);
      assert p[i..][1..] == p[i + 1..];
      assert p[i..][1..|p[i..]|] == p[i + 1..|p|];
    }
    assert p[0..] == p;
  }

  /** The innermost loop, for position `i` of post `p`: adds `RowPart(p, i,
      |p|, a, b)` to every key `(a, b)`. */
  method CountRow(p: Post, i: nat, nTags: nat, co0: map<Key, int>) returns (co: map<Key, int>)
    requires i < |p| && PairedBelow(p, nTags)
    requires forall k | k in co0 :: k.0 < nTags && k.1 < nTags && co0[k] > 0
    ensures forall k | k in co :: k.0 < nTags && k.1 < nTags && co[k] > 0
    ensures forall a: nat, b: nat :: Get(co, (a, b)) == Get(co0, (a, b)) + RowPart(p, i, |p|, a, b)
  {
    co := co0;
    for j := i + 1 to |p|
      invariant forall key | key in co :: key.0 < nTags && key.1 < nTags && co[key] > 0
      invariant forall a: nat, b: nat :: Get(co, (a, b)) == Get(co0, (a, b)) + RowPart(p, i, j, a, b)
    {
      var a, b := p[i], p[j];
      assert a in p && b in p;
      ghost var before := co;
      co := co[(a, b) := Get(co, (a, b)) + 1];
      co := co[(b, a) := Get(co, (b, a)) + 1];
      forall x: nat, y: nat
        ensures Get(co, (x, y)) == Get(co0, (x, y)) + RowPart(p, i, j + 1, x, y)
      {
        RowPartStep(p, i, j, x, y);
        assert Get(co, (x, y))
          == Get(before, (x, y)) + (if (a, b) == (x, y) then 1 else 0) + (if (b, a) == (x, y) then 1 else 0);
      }
    }
  }

  /** Position `j` extends row `i`'s part by its two keys. */
  lemma RowPartStep(p: Post, i: nat, j: nat, x: nat, y: nat)
    requires i < j < |p|
    ensures RowPart(p, i, j + 1, x, y) == RowPart(p, i, j, x, y)
      + (if (p[i], p[j]) == (x, y) then 1 else 0) + (if (p[j], p[i]) == (x, y) then 1 else 0)
  {
    assert p[i + 1..j + 1] == p[i + 1..j] + [p[j]];
  }

  /** What a chunk's matrix must satisfy: the shape `n_tags x n_tags`, rows
      in strictly ascending column order with positive values, and the
      chunk's counts in its cells. */
  ghost predicate CountsOf(m: Csr, nTags: nat, chunk: seq<Post>)
    reads m
  {
    m.Valid() && m.nRows == nTags && m.nCols == nTags && m.RowsAscending() && m.RowsPositive() &&
    forall a: nat, b: nat | a < nTags :: m.At(a, b) == Count(chunk, a, b)
  }

  /** The spawning loop of `get_co_counts`, run one chunk after the other:
      each chunk is counted into a map that becomes an `n_tags x n_tags`
      matrix. */
  method CountChunks(chunks: seq<seq<Post>>, nTags: nat) returns (locals: seq<Csr>)
    requires forall k, p | 0 <= k < |chunks| && p in chunks[k] :: PairedBelow(p, nTags)
    ensures |locals| == |chunks|
    ensures forall i | 0 <= i < |chunks| :: CountsOf(locals[i], nTags, chunks[i])
  {
    locals := [];
    for k := 0 to |chunks|
      invariant |locals| == k
      invariant forall i | 0 <= i < k :: CountsOf(locals[i], nTags, chunks[i])
    {
      var local := ChunkWorker(chunks[k], nTags);
      locals := locals + [local];
    }
  }

  /** The closure one worker thread runs: count the chunk into a map, then
      turn the map into an `n_tags x n_tags` matrix. */
  method ChunkWorker(chunk: seq<Post>, nTags: nat) returns (local: Csr)
    requires forall p | p in chunk :: PairedBelow(p, nTags)
    ensures fresh(local) && CountsOf(local, nTags, chunk)
  {
    var co := CountChunk(chunk, nTags);
    local := Csr.FromFxHash(co, nTags, nTags);
  }

  /** The joining loop of `get_co_counts`: starting from `CSR::new(n_tags,
      n_tags)`, adds the chunk matrices in order with `add_in_place`,
      passing an error on with `?`. No error can occur, since every matrix
      has the same shape, and the sum holds every chunk's counts. */
  method SumChunks(locals: seq<Csr>, chunks: seq<seq<Post>>, nTags: nat) returns (r: Result<Csr, string>)
    requires |locals| == |chunks|
    requires forall i | 0 <= i < |chunks| :: CountsOf(locals[i], nTags, chunks[i])
    ensures r.Ok? && r.value.Valid() && r.value.nRows == nTags && r.value.nCols == nTags
    ensures r.value.RowsAscending() && r.value.RowsPositive()
    ensures forall a: nat, b: nat | a < nTags :: r.value.At(a, b) == ChunkTotal(chunks, a, b)
  {
    var acc := new Csr.New(nTags, nTags);
    for k := 0 to |locals|
      invariant acc !in locals
      invariant forall i | 0 <= i < |locals| :: CountsOf(locals[i], nTags, chunks[i])
      invariant acc.Valid() && acc.nRows == nTags && acc.nCols == nTags
      invariant acc.RowsAscending() && acc.RowsPositive()
      invariant forall a: nat, b: nat | a < nTags :: acc.At(a, b) == ChunkTotal(chunks[..k], a, b)
    {
      ghost var before := acc.Rows();
      var outcome := acc.AddInPlace(locals[k]);
      match outcome {
        case Fail(e) =>
          assert false;
          return Err(e);
        case Pass =>
      }
      SumCells(before, locals[k], acc);
      assert chunks[..k + 1][..k] == chunks[..k];
    }
    assert chunks[..|chunks|] == chunks;
    r := Ok(acc);
  }

  /** `get_co_counts`: cuts the posts into chunks of `n_posts / 12 + 1`,
      counts each chunk into a matrix and adds the chunk matrices into an
      empty one. Every cell `(a, b)` ends up with the total of the
      increments of every post, so the matrix is symmetric. */
  method GetCoCounts(nPosts: nat, tags: Tags.Tags, postsTagIdxs: seq<Post>) returns (r: Result<Csr, string>)
    requires forall p | p in postsTagIdxs :: PairedBelow(p, tags.Len())
    ensures r.Ok? && r.value.Valid()
    ensures r.value.nRows == tags.Len() && r.value.nCols == tags.Len()
    ensures r.value.RowsAscending() && r.value.RowsPositive()
    ensures forall a: nat, b: nat | a < tags.Len() :: r.value.At(a, b) == Count(postsTagIdxs, a, b)
    ensures forall a: nat, b: nat | a < tags.Len() && b < tags.Len() :: r.value.At(a, b) == r.value.At(b, a)
  {
    var nTags := tags.Len();
    var size := nPosts / NChunk + 1;
    var chunks := Chunks(postsTagIdxs, size);
    ChunksPartition(postsTagIdxs, size);
    var locals := CountChunks(chunks, nTags);
    r := SumChunks(locals, chunks, nTags);
    var m := r.value;
    forall a: nat, b: nat | a < nTags ensures m.At(a, b) == Count(postsTagIdxs, a, b) {
      CountFlatten(chunks, a, b);
    }
    forall a: nat, b: nat | a < nTags && b < nTags ensures m.At(a, b) == m.At(b, a) {
      CountSymmetric(postsTagIdxs, a, b);
    }
  }
}
