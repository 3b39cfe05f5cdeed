/** `smallest_period`: the failure function of Knuth, Morris and Pratt. */
module Period {

  /** The first `b` tokens are also the last `b` of the first `n`, and fewer than all of them. */
  predicate Border<T(==)>(t: seq<T>, n: nat, b: nat)
    requires n <= |t|
  {
    b < n && forall k :: 0 <= k < b ==> t[k] == t[n - b + k]
  }

  ghost predicate LongestBorder<T>(t: seq<T>, n: nat, b: nat)
    requires n <= |t|
  {
    Border(t, n, b) && forall c: nat :: Border(t, n, c) ==> c <= b
  }

  /** Shifting by `p` maps the sequence to itself wherever both places exist. */
  predicate HasPeriod<T(==)>(t: seq<T>, p: nat) {
    p >= 1 && forall i :: 0 <= i < |t| - p ==> t[i] == t[i + p]
  }

  lemma PeriodIsBorder<T>(t: seq<T>, p: nat)
    requires 1 <= p <= |t|
    ensures HasPeriod(t, p) <==> Border(t, |t|, |t| - p)
  {
    if Border(t, |t|, |t| - p) {
      forall i | 0 <= i < |t| - p ensures t[i] == t[i + p] {}
    }
  }

  /** A border of a border is a border. */
  lemma BorderOfBorder<T>(t: seq<T>, n: nat, b: nat, c: nat)
    requires n <= |t| && Border(t, n, b) && Border(t, b, c)
    ensures Border(t, n, c)
  {
    forall k | 0 <= k < c ensures t[k] == t[n - c + k] {
      assert t[k] == t[b - c + k];
    }
  }

  /** Of two borders the shorter is a border of the longer. */
  lemma ShorterBorder<T>(t: seq<T>, n: nat, b: nat, c: nat)
    requires n <= |t| && Border(t, n, b) && Border(t, n, c) && c < b
    ensures Border(t, b, c)
  {
    forall k | 0 <= k < c ensures t[k] == t[b - c + k] {
      assert t[k] == t[n - c + k];
      assert t[b - c + k] == t[n - b + (b - c + k)];
    }
  }

  lemma BorderShrinks<T>(t: seq<T>, n: nat, b: nat)
    requires n < |t| && n >= 1
    ensures Border(t, n + 1, b + 1) <==> Border(t, n, b) && t[b] == t[n]
  {
    if Border(t, n + 1, b + 1) {
      forall k | 0 <= k < b ensures t[k] == t[n - b + k] {
        assert t[k] == t[(n + 1) - (b + 1) + k];
      }
      assert t[b] == t[(n + 1) - (b + 1) + b];
    }
  }

  /** Every border that could be extended by token `n` is at most `k` long. */
  ghost predicate Bounds<T>(t: seq<T>, n: nat, k: nat)
    requires n < |t|
  {
    forall c: nat :: Border(t, n, c) && t[c] == t[n] ==> c <= k
  }

  /** The failure function: `failure[i]` is the longest proper border of the first `i + 1` tokens. */
  method Failure<T(==)>(tokens: seq<T>) returns (failure: seq<nat>)
    requires tokens != []
    ensures |failure| == |tokens|
    ensures forall j :: 0 <= j < |tokens| ==> LongestBorder(tokens, j + 1, failure[j])
  {
    failure := [0];
    var k: nat := 0;
    for i := 1 to |tokens|
      invariant |failure| == i && k == failure[i - 1]
      invariant forall j :: 0 <= j < i ==> LongestBorder(tokens, j + 1, failure[j])
    {
      while k > 0 && tokens[i] != tokens[k]
        invariant Border(tokens, i, k) && Bounds(tokens, i, k)
      {
        var shorter := failure[k - 1];
        assert LongestBorder(tokens, k, shorter);
        Fallback(tokens, i, k, shorter);
        k := shorter;
      }
      k := NextFailure(tokens, i, k);
      failure := failure + [k];
    }
  }

  lemma Fallback<T>(t: seq<T>, n: nat, k: nat, shorter: nat)
    requires n < |t| && Border(t, n, k) && Bounds(t, n, k) && 0 < k && t[n] != t[k]
    requires LongestBorder(t, k, shorter)
    ensures shorter < k && Border(t, n, shorter) && Bounds(t, n, shorter)
  {
    BorderOfBorder(t, n, k, shorter);
    forall c: nat | Border(t, n, c) && t[c] == t[n] ensures c <= shorter {
      ShorterBorder(t, n, k, c);
    }
  }

  /** What the loop does once it has stopped falling back. */
  method NextFailure<T(==)>(tokens: seq<T>, i: nat, k: nat) returns (next: nat)
    requires 1 <= i < |tokens| && Border(tokens, i, k) && Bounds(tokens, i, k)
    requires k > 0 ==> tokens[i] == tokens[k]
    ensures LongestBorder(tokens, i + 1, next)
  {
    next := k;
    if tokens[i] == tokens[k] {
      next := k + 1;
      BorderShrinks(tokens, i, k);
    }
    ghost var after := i + 1;
    forall c: nat | Border(tokens, after, c) ensures c <= next {
      if c > 0 {
        BorderShrinks(tokens, i, c - 1);
      }
    }
  }

  /** `smallest_period`. */
  method SmallestPeriod<T(==)>(tokens: seq<T>) returns (p: nat)
    requires tokens != []
    ensures HasPeriod(tokens, p)
    ensures forall q: nat :: HasPeriod(tokens, q) ==> p <= q
  {
    var length := |tokens|;
    var failure := Failure(tokens);
    assert LongestBorder(tokens, length, failure[length - 1]);
    p := length - failure[length - 1];
    PeriodIsBorder(tokens, p);
    forall q: nat | HasPeriod(tokens, q) ensures p <= q {
      if q <= length {
        PeriodIsBorder(tokens, q);
      }
    }
  }
}
