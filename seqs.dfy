/** Small facts about sequences, proved once for every element type. */
module Seqs {
  lemma Assoc<T>(x: seq<T>, y: seq<T>, z: seq<T>)
    ensures (x + y) + z == x + (y + z)
  {
  }

  /** Of a + b with b non-empty, all but the last element is a + all but b's last, and the last is b's. */
  lemma AppendDropLast<T>(a: seq<T>, b: seq<T>)
    requires b != []
    ensures (a + b)[..|a + b| - 1] == a + b[..|b| - 1]
    ensures (a + b)[|a + b| - 1] == b[|b| - 1]
  {
  }

  /** Of a + b with a non-empty, the first element is a's and the rest is a's rest followed by b. */
  lemma AppendDropFirst<T>(a: seq<T>, b: seq<T>)
    requires a != []
    ensures (a + b)[0] == a[0] && (a + b)[1..] == a[1..] + b
  {
  }

  /** The slice s[lo..hi] is the slice s[lo..hi-1] followed by s[hi-1]. */
  lemma SliceDropLast<T>(s: seq<T>, lo: nat, hi: nat)
    requires lo < hi <= |s|
    ensures s[lo..hi][..hi - lo - 1] == s[lo..hi - 1] && s[lo..hi][hi - lo - 1] == s[hi - 1]
  {
  }

  /** A sequence is all but its last element followed by that element. */
  lemma DropLastThenLast<T>(s: seq<T>)
    requires s != []
    ensures s == s[..|s| - 1] + [s[|s| - 1]]
  {
  }

  /** Framed by the same prefix and suffix, different middles make different sequences. */
  lemma MiddleDiffers<T>(p: seq<T>, x: seq<T>, y: seq<T>, q: seq<T>)
    requires x != y
    ensures p + x + q != p + y + q
  {
    assert (p + x + q)[|p|..|p| + |x|] == x;
    assert (p + y + q)[|p|..|p| + |y|] == y;
  }
}
