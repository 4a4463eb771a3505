/** Range scans over string-keyed tables: the half-open range computed for a prefix
    holds exactly the strings that start with it. Keys are Unicode strings, ordered
    by code point, which is also the order of their UTF-8 bytes. */
module KeyRange {
  import opened Common

  const MAX_CHAR: char := 0x10FFFF as char

  predicate Less(a: string, b: string) {
    if b == "" then false
    else if a == "" then true
    else if a[0] != b[0] then a[0] < b[0]
    else Less(a[1..], b[1..])
  }

  /** The keys a scan from `low` to `high` visits; no upper end scans to the last key. */
  predicate InRange(low: string, high: Option<string>, s: string) {
    !Less(s, low) && (high.Some? ==> Less(s, high.value))
  }

  predicate IsScalar(n: int) {
    0 <= n < 0xD800 || 0xE000 <= n <= 0x10FFFF
  }

  predicate AllMax(s: string) {
    forall i :: 0 <= i < |s| ==> s[i] == MAX_CHAR
  }

  /** `d` is the scalar value right after `c`, across the surrogate gap. */
  predicate NextScalar(c: char, d: char) {
    c < d && forall n :: c as int < n < d as int ==> !IsScalar(n)
  }

  lemma {:induction false} NothingAboveAllMax(tail: string, s: string)
    requires AllMax(tail)
    ensures !Less(s, tail) <==> tail <= s
  {
    if tail != "" && s != "" {
      assert s[0] <= MAX_CHAR;
      if s[0] == tail[0] {
        NothingAboveAllMax(tail[1..], s[1..]);
        assert tail <= s <==> tail[1..] <= s[1..];
      }
    }
  }

  lemma {:induction false} BumpedRangeIsExact(stem: string, c: char, d: char, tail: string, s: string)
    requires NextScalar(c, d) && AllMax(tail)
    ensures InRange(stem + [c] + tail, Some(stem + [d]), s) <==> stem + [c] + tail <= s
  {
    var low, high := stem + [c] + tail, stem + [d];
    if s == "" {
    } else if stem == "" {
      assert low[1..] == tail && high[1..] == "";
      assert low[0] == c && high[0] == d && IsScalar(s[0] as int);
      assert s[0] < c || s[0] == c || d <= s[0];
      assert Less(s, high) <==> s[0] < d;
      if s[0] == c {
        NothingAboveAllMax(tail, s[1..]);
        assert low <= s <==> tail <= s[1..];
      }
    } else {
      assert low[1..] == stem[1..] + [c] + tail && high[1..] == stem[1..] + [d];
      if s[0] == stem[0] {
        BumpedRangeIsExact(stem[1..], c, d, tail, s[1..]);
        assert low <= s <==> low[1..] <= s[1..];
      }
    }
  }

  /** Computes the end of the range: drops trailing maximal characters, and bumps
      the last remaining one to the next scalar value. */
  method PrefixRangeEnd(prefix: string) returns (r: Option<string>)
    ensures forall s :: InRange(prefix, r, s) <==> prefix <= s
    ensures r.None? <==> AllMax(prefix)
  {
    var end := prefix;
    ghost var tail := "";
    while end != ""
      invariant prefix == end + tail && AllMax(tail)
      decreases |end|
    {
      var last := end[|end| - 1];
      end := end[..|end| - 1];
      var next := last as int + 1;
      while next <= 0x10FFFF
        invariant last as int < next
        invariant forall n :: last as int < n < next ==> !IsScalar(n)
      {
        if IsScalar(next) {
          var bumped := next as char;
          forall s ensures InRange(prefix, Some(end + [bumped]), s) <==> prefix <= s {
            assert prefix == end + [last] + tail;
            BumpedRangeIsExact(end, last, bumped, tail, s);
          }
          assert prefix[|end|] == last != MAX_CHAR;
          return Some(end + [bumped]);
        }
        next := next + 1;
      }
      assert last == MAX_CHAR by {
        if last != MAX_CHAR { assert IsScalar(MAX_CHAR as int); }
      }
      tail := [last] + tail;
    }
    forall s ensures InRange(prefix, None, s) <==> prefix <= s {
      NothingAboveAllMax(prefix, s);
    }
    return None;
  }

  /** The rows left when those under a prefix whose key matches are removed. */
  function WithoutMatching<V>(table: map<string, V>, prefix: string, matches: string -> bool): map<string, V> {
    map k | k in table && !(prefix <= k && matches(k)) :: table[k]
  }

  function WithoutPrefix<V>(table: map<string, V>, prefix: string): map<string, V> {
    WithoutMatching(table, prefix, _ => true)
  }

  /** Removes the rows of a prefix scan whose key matches, and counts them. */
  method RemovePrefixMatching<V>(table: map<string, V>, prefix: string, matches: string -> bool)
    returns (kept: map<string, V>, removed: nat)
    ensures kept == WithoutMatching(table, prefix, matches)
    ensures removed == |table| - |kept|
    ensures removed == 0 <==> kept == table
  {
    var end := PrefixRangeEnd(prefix);
    var gone := set k | k in table && InRange(prefix, end, k) && matches(k);
    kept := table - gone;
    removed := |gone|;
    CountRemoved(table, gone);
  }

  lemma CountRemoved<V>(table: map<string, V>, gone: set<string>)
    requires gone <= table.Keys
    ensures |gone| == |table| - |table - gone|
    ensures |gone| == 0 <==> table - gone == table
  {
    var kept := table - gone;
    assert kept.Keys == table.Keys - gone;
    if |gone| == 0 {
      assert gone == {};
      assert kept == table;
    }
  }

  method RemovePrefix<V>(table: map<string, V>, prefix: string)
    returns (kept: map<string, V>, removed: nat)
    ensures kept == WithoutPrefix(table, prefix)
    ensures removed == |table| - |kept|
    ensures removed == 0 <==> kept == table
  {
    kept, removed := RemovePrefixMatching(table, prefix, _ => true);
  }

  method RemoveKey<V>(table: map<string, V>, key: string)
    returns (kept: map<string, V>, removed: nat)
    ensures kept == table - {key}
    ensures removed == |table| - |kept|
    ensures removed == 0 <==> kept == table
  {
    kept, removed := table - {key}, if key in table then 1 else 0;
    if key in table {
      CountRemoved(table, {key});
    } else {
      assert kept == table;
    }
  }
}
