/** Small sequence helpers shared by the client components. */
module Common {

  /** JavaScript's `null` / `undefined` versus a present value. */
  datatype Option<+T> = None | Some(value: T)

  /** JavaScript's `s.slice(0, n)` for a non-negative `n`: the first `n`
      elements, or all of `s` when `n` runs past its end. */
  function SliceTo<T>(s: seq<T>, n: nat): (r: seq<T>)
    ensures r <= s
    ensures |r| == if n <= |s| then n else |s|
  {
    if n <= |s| then s[..n] else s
  }

  /** The length cap written in both client components as
      `if (xs.length > n) return xs.slice(xs.length - n); return xs;`. */
  function KeepLast<T>(s: seq<T>, n: nat): (r: seq<T>)
    ensures |r| == if |s| <= n then |s| else n
    ensures r == s[|s| - |r|..]
  {
    if |s| > n then s[|s| - n..] else s
  }

  /** Appending one element to a list that is already capped and capping
      again is the same as capping the whole uncapped history: the capped
      list is always the newest `n` elements ever appended. */
  lemma KeepLastAppend<T>(s: seq<T>, x: T, n: nat)
    ensures KeepLast(KeepLast(s, n) + [x], n) == KeepLast(s + [x], n)
  {
    if n == 0 {
      assert |KeepLast(KeepLast(s, n) + [x], n)| == 0 == |KeepLast(s + [x], n)|;
    } else if |s| > n {
      var t := s[|s| - n..];
      var u := s[|s| - n + 1..] + [x];
      assert KeepLast(t + [x], n) == (t + [x])[1..];
      assert (t + [x])[1..] == u;
      assert KeepLast(s + [x], n) == (s + [x])[|s| + 1 - n..];
      assert (s + [x])[|s| + 1 - n..] == u;
    }
  }

  /** Appending below the cap keeps everything; appending at the cap drops
      exactly the oldest element and keeps the order of the rest. */
  lemma AppendUnderCap<T>(s: seq<T>, x: T, n: nat)
    requires |s| <= n
    ensures |s| < n ==> KeepLast(s + [x], n) == s + [x]
    ensures 0 < |s| == n ==> KeepLast(s + [x], n) == s[1..] + [x]
  {
    if 0 < |s| == n {
      assert (s + [x])[1..] == s[1..] + [x];
    }
  }
}
