/** The bounded histories of the simulator: an append-then-shift buffer
    (message logs) and a prepend-then-truncate buffer (event and
    notification lists). */
module BoundedLog {

  /** The last `cap` elements of s (all of s when it is short enough). */
  function Window<T>(s: seq<T>, cap: nat): (r: seq<T>)
    ensures |r| <= cap && |r| <= |s|
    ensures |s| <= cap ==> r == s
    ensures |s| > cap ==> |r| == cap
    ensures r == s[|s| - |r|..]
  {
    if |s| <= cap then s else s[|s| - cap..]
  }

  /** `push(x)` followed by one `shift()` when the length then exceeds cap. */
  function PushBounded<T>(s: seq<T>, x: T, cap: nat): seq<T>
  {
    var t := s + [x];
    if |t| > cap then t[1..] else t
  }

  /** Appending to a buffer that holds the last cap items of a history
      gives the last cap items of the extended history. */
  lemma PushWindow<T>(s: seq<T>, x: T, cap: nat)
    ensures PushBounded(Window(s, cap), x, cap) == Window(s + [x], cap)
  {
    var w := Window(s, cap);
    var t := s + [x];
    if |s| > cap && cap > 0 {
      assert w == s[|s| - cap..];
      assert (w + [x])[1..] == w[1..] + [x];
      assert w[1..] == s[|s| - cap + 1..];
      assert t[|t| - cap..] == s[|s| - cap + 1..] + [x];
    } else if |s| > cap {
      assert Window(t, cap) == [];
    } else if |t| > cap {
      assert w == s;
      assert t[1..] == t[|t| - cap..];
    }
  }

  /** A buffer of at most cap items stays within cap, keeps its order, ends
      with the new item and drops at most the oldest one. */
  lemma PushBoundedProperties<T>(s: seq<T>, x: T, cap: nat)
    requires 0 < cap && |s| <= cap
    ensures |PushBounded(s, x, cap)| <= cap
    ensures PushBounded(s, x, cap)[|PushBounded(s, x, cap)| - 1] == x
    ensures PushBounded(s, x, cap) == s + [x] || PushBounded(s, x, cap) == s[1..] + [x]
  {
    if |s| == cap {
      assert (s + [x])[1..] == s[1..] + [x];
    }
  }

  /** Appending several items one by one to a windowed buffer. */
  function PushAllBounded<T>(s: seq<T>, xs: seq<T>, cap: nat): seq<T>
    decreases |xs|
  {
    if |xs| == 0 then s else PushAllBounded(PushBounded(s, xs[0], cap), xs[1..], cap)
  }

  lemma {:induction false} PushAllWindow<T>(s: seq<T>, xs: seq<T>, cap: nat)
    ensures PushAllBounded(Window(s, cap), xs, cap) == Window(s + xs, cap)
    decreases |xs|
  {
    if |xs| == 0 {
      assert s + xs == s;
    } else {
      var x, rest := xs[0], xs[1..];
      assert PushAllBounded(Window(s, cap), xs, cap) == PushAllBounded(PushBounded(Window(s, cap), x, cap), rest, cap);
      PushWindow(s, x, cap);
      PushAllWindow(s + [x], rest, cap);
      assert (s + [x]) + rest == s + xs;
    }
  }

  /** `unshift(x)` followed by `slice(0, cap)` when the length then exceeds cap. */
  function PrependBounded<T>(s: seq<T>, x: T, cap: nat): seq<T>
  {
    var t := [x] + s;
    if |t| > cap then t[..cap] else t
  }

  /** The newest item comes first, the older ones follow in order, and the
      list never exceeds cap. */
  lemma PrependBoundedProperties<T>(s: seq<T>, x: T, cap: nat)
    requires 0 < cap
    ensures var r := PrependBounded(s, x, cap);
      && |r| == (if |s| + 1 <= cap then |s| + 1 else cap)
      && r[0] == x
      && r[1..] == s[..|r| - 1]
  {
  }
}
