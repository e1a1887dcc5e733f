/** Character-sequence helpers: counting, searching and splitting on one separator. */
module Text {
  import opened Wrappers

  /** Number of occurrences of `c` in `s`. */
  function Count(s: seq<char>, c: char): nat
  {
    if s == [] then 0 else (if s[0] == c then 1 else 0) + Count(s[1..], c)
  }

  /** `std::string::find(c, from)`: the first position at or after `from` holding `c`,
      or `None` for `npos`. */
  function Find(s: seq<char>, c: char, from: nat): (r: Option<nat>)
    ensures r.Some? ==> from <= r.value < |s| && s[r.value] == c
    ensures r.Some? ==> forall k :: from <= k < r.value ==> s[k] != c
    ensures r.None? ==> forall k :: from <= k < |s| ==> s[k] != c
    decreases |s| - from
  {
    if from >= |s| then None
    else if s[from] == c then Some(from)
    else Find(s, c, from + 1)
  }

  /** A `c` anywhere in `s` is counted. */
  lemma {:induction false} CountPositive(s: seq<char>, c: char, k: nat)
    requires k < |s| && s[k] == c
    ensures Count(s, c) >= 1
  {
    if k > 0 {
      CountPositive(s[1..], c, k - 1);
    }
  }

  /** With no `c` in `s` the count is zero. */
  lemma {:induction false} CountAbsent(s: seq<char>, c: char)
    requires c !in s
    ensures Count(s, c) == 0
  {
    if s != [] {
      CountAbsent(s[1..], c);
    }
  }

  /** Counting distributes over concatenation. */
  lemma {:induction false} CountAppend(a: seq<char>, b: seq<char>, c: char)
    ensures Count(a + b, c) == Count(a, c) + Count(b, c)
  {
    if a != [] {
      assert (a + b)[1..] == a[1..] + b;
      CountAppend(a[1..], b, c);
    } else {
      assert a + b == b;
    }
  }

  /** A position holding `c` with no `c` between `from` and it is what `find` reports. */
  lemma FindAt(s: seq<char>, c: char, from: nat, i: nat)
    requires from <= i < |s| && s[i] == c
    requires forall k :: from <= k < i ==> s[k] != c
    ensures Find(s, c, from) == Some(i)
  {
  }

  /** With no `c` from `from` on, `find` reports `npos`. */
  lemma FindAbsent(s: seq<char>, c: char, from: nat)
    requires forall k :: from <= k < |s| ==> s[k] != c
    ensures Find(s, c, from) == None
  {
  }

  /** The fields of `s` between occurrences of `sep`, in order; `k` separators give `k + 1`
      fields, and two adjacent separators, or one at either end, give an empty field. */
  function Split(s: seq<char>, sep: char): (fields: seq<seq<char>>)
    ensures |fields| == Count(s, sep) + 1
  {
    if s == [] then [[]]
    else
      var rest := Split(s[1..], sep);
      if s[0] == sep then [[]] + rest else [[s[0]] + rest[0]] + rest[1..]
  }

  /** No field contains the separator. */
  lemma {:induction false} SplitFieldsFree(s: seq<char>, sep: char)
    ensures forall i :: 0 <= i < |Split(s, sep)| ==> sep !in Split(s, sep)[i]
  {
    if s != [] {
      SplitFieldsFree(s[1..], sep);
      var rest := Split(s[1..], sep);
      if s[0] != sep {
        assert sep !in [s[0]] + rest[0];
      }
    }
  }

  /** The fields written one after another with `sep` between neighbours. */
  function Join(fields: seq<seq<char>>, sep: char): seq<char>
  {
    if fields == [] then []
    else if |fields| == 1 then fields[0]
    else fields[0] + [sep] + Join(fields[1..], sep)
  }

  /** Splitting loses nothing: joining the fields back gives the original text. */
  lemma {:induction false} JoinSplit(s: seq<char>, sep: char)
    ensures Join(Split(s, sep), sep) == s
  {
    if s != [] {
      var rest := Split(s[1..], sep);
      JoinSplit(s[1..], sep);
      if s[0] == sep {
        assert Split(s, sep) == [[]] + rest;
      } else if |rest| == 1 {
        assert Split(s, sep) == [[s[0]] + rest[0]];
      } else {
        var fs := Split(s, sep);
        assert fs == [[s[0]] + rest[0]] + rest[1..];
        assert fs[1..] == rest[1..];
        assert Join(fs, sep) == [s[0]] + (rest[0] + [sep] + Join(rest[1..], sep));
      }
    }
  }

  /** A prefix free of `sep` is glued onto the first field. */
  lemma {:induction false} SplitPrefix(a: seq<char>, b: seq<char>, sep: char)
    requires sep !in a
    ensures Split(a + b, sep) == [a + Split(b, sep)[0]] + Split(b, sep)[1..]
  {
    if a != [] {
      var sb := Split(b, sep);
      SplitPrefix(a[1..], b, sep);
      assert (a + b)[0] == a[0] && a[0] != sep;
      assert (a + b)[1..] == a[1..] + b;
      var rest := Split(a[1..] + b, sep);
      assert rest == [a[1..] + sb[0]] + sb[1..];
      assert Split(a + b, sep) == [[a[0]] + rest[0]] + rest[1..];
      assert [a[0]] + (a[1..] + sb[0]) == a + sb[0];
    } else {
      var sb := Split(b, sep);
      assert a + b == b && a + sb[0] == sb[0];
      assert sb == [sb[0]] + sb[1..];
    }
  }

  /** When `i` is the first `sep` of `s` (or `|s|` when there is none), the first field is
      `s[..i]` and the rest are the fields after that separator. */
  lemma SplitAt(s: seq<char>, sep: char, i: nat)
    requires i <= |s|
    requires forall k :: 0 <= k < i ==> s[k] != sep
    requires i < |s| ==> s[i] == sep
    ensures Split(s, sep) == [s[..i]] + (if i < |s| then Split(s[i + 1..], sep) else [])
  {
    assert s == s[..i] + s[i..];
    SplitPrefix(s[..i], s[i..], sep);
    if i < |s| {
      assert s[i..] == [sep] + s[i + 1..];
      var st := Split(s[i..], sep);
      assert st == [[]] + Split(s[i + 1..], sep);
      assert st[0] == [] && st[1..] == Split(s[i + 1..], sep);
      assert s[..i] + st[0] == s[..i];
    } else {
      assert s[i..] == [] && s[..i] == s;
      var st := Split(s[i..], sep);
      assert st == [[]];
      assert s[..i] + st[0] == s;
    }
  }

  /** `SplitAt` on the slice `a[lo..hi]`, with `q` the first `sep` at or after `lo` (or
      `hi` when there is none). */
  lemma SplitSlice(a: seq<char>, sep: char, lo: nat, q: nat, hi: nat)
    requires lo <= q <= hi <= |a|
    requires forall k :: lo <= k < q ==> a[k] != sep
    requires q < hi ==> a[q] == sep
    ensures q < hi ==> Split(a[lo..hi], sep) == [a[lo..q]] + Split(a[q + 1..hi], sep)
    ensures q == hi ==> Split(a[lo..hi], sep) == [a[lo..q]]
  {
    var s := a[lo..hi];
    var i := q - lo;
    assert s[..i] == a[lo..q];
    SplitAt(s, sep, i);
    if q < hi {
      assert s[i + 1..] == a[q + 1..hi];
    }
  }

  /** Joining fields free of `sep` and splitting again gives the same fields back. */
  lemma {:induction false} SplitJoin(fields: seq<seq<char>>, sep: char)
    requires |fields| >= 1
    requires forall i :: 0 <= i < |fields| ==> sep !in fields[i]
    ensures Split(Join(fields, sep), sep) == fields
  {
    if |fields| == 1 {
      SplitPrefix(fields[0], [], sep);
      assert fields[0] + [] == fields[0];
    } else {
      var tail := Join(fields[1..], sep);
      SplitJoin(fields[1..], sep);
      assert Join(fields, sep) == fields[0] + ([sep] + tail);
      SplitPrefix(fields[0], [sep] + tail, sep);
      assert ([sep] + tail)[1..] == tail;
      var st := Split([sep] + tail, sep);
      assert st == [[]] + fields[1..];
      assert st[0] == [] && st[1..] == fields[1..];
      assert fields[0] + st[0] == fields[0];
      assert fields == [fields[0]] + fields[1..];
    }
  }
}
