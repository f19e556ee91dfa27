/**
 * The Python `str` operations the filter code relies on: `strip()`, `split(sep)`,
 * `sep.join(...)`, the substring test `p in s` and the ordering `a < b` used by `sorted`.
 */
module Text {
  import Collections

  /** Characters for which Python's `str.isspace()` holds; `strip()` with no argument removes these. */
  predicate IsSpace(c: char) {
    var n := c as int;
    (0x09 <= n <= 0x0D) || (0x1C <= n <= 0x20) || n == 0x85 || n == 0xA0 || n == 0x1680 ||
    (0x2000 <= n <= 0x200A) || n == 0x2028 || n == 0x2029 || n == 0x202F || n == 0x205F ||
    n == 0x3000
  }

  predicate AllSpace(s: string) {
    forall i :: 0 <= i < |s| ==> IsSpace(s[i])
  }

  /** `s.lstrip()`: the longest suffix of `s` that does not start with whitespace. */
  function TrimStart(s: string): (r: string)
    ensures |r| <= |s| && r == s[|s| - |r|..]
    ensures AllSpace(s[..|s| - |r|])
    ensures r == [] || !IsSpace(r[0])
  {
    if s != [] && IsSpace(s[0]) then TrimStart(s[1..]) else s
  }

  /** `s.rstrip()`: the longest prefix of `s` that does not end with whitespace. */
  function TrimEnd(s: string): (r: string)
    ensures |r| <= |s| && r == s[..|r|]
    ensures AllSpace(s[|r|..])
    ensures r == [] || !IsSpace(r[|r| - 1])
  {
    if s != [] && IsSpace(s[|s| - 1]) then TrimEnd(s[..|s| - 1]) else s
  }

  /** `s.strip()`: `s` without its leading and trailing whitespace. */
  function Strip(s: string): (r: string)
    ensures r == [] || (!IsSpace(r[0]) && !IsSpace(r[|r| - 1]))
  {
    TrimEnd(TrimStart(s))
  }

  /** `s` is `r` with only whitespace before position `i` and after `r`. */
  ghost predicate PaddedAt(s: string, r: string, i: int) {
    0 <= i <= |s| - |r| && s[i..i + |r|] == r && AllSpace(s[..i]) && AllSpace(s[i + |r|..])
  }

  /** What `strip()` removes is whitespace on either side of the result. */
  lemma {:induction false} StripRemovesSurroundingSpace(s: string)
    ensures exists i :: PaddedAt(s, Strip(s), i)
  {
    var t := TrimStart(s);
    var r := TrimEnd(t);
    var i := |s| - |t|;
    assert t == s[i..];
    assert s[i..i + |r|] == t[..|r|] == r;
    assert s[i + |r|..] == t[|r|..];
    assert AllSpace(s[..i]);
    assert AllSpace(s[i + |r|..]);
    assert Strip(s) == r;
    assert PaddedAt(s, r, i);
  }

  lemma {:induction false} TrimStartSkipsSpace(pre: string, x: string)
    requires AllSpace(pre)
    ensures TrimStart(pre + x) == TrimStart(x)
  {
    if pre != [] {
      assert (pre + x)[0] == pre[0] && IsSpace(pre[0]);
      assert (pre + x)[1..] == pre[1..] + x;
      assert AllSpace(pre[1..]);
      assert TrimStart(pre + x) == TrimStart(pre[1..] + x);
      TrimStartSkipsSpace(pre[1..], x);
    } else {
      assert pre + x == x;
    }
  }

  lemma {:induction false} TrimEndSkipsSpace(y: string, post: string)
    requires AllSpace(post)
    ensures TrimEnd(y + post) == TrimEnd(y)
  {
    if post != [] {
      var init := post[..|post| - 1];
      assert (y + post)[|y + post| - 1] == post[|post| - 1] && IsSpace(post[|post| - 1]);
      assert (y + post)[..|y + post| - 1] == y + init;
      assert AllSpace(init);
      assert TrimEnd(y + post) == TrimEnd(y + init);
      TrimEndSkipsSpace(y, init);
    } else {
      assert y + post == y;
    }
  }

  /**
   * Strip is determined by its contract: whatever surrounds a core that neither starts nor
   * ends with whitespace, if the surroundings are all whitespace, stripping yields the core.
   */
  lemma {:induction false} StripUnique(pre: string, core: string, post: string)
    requires AllSpace(pre) && AllSpace(post)
    requires core == [] || (!IsSpace(core[0]) && !IsSpace(core[|core| - 1]))
    ensures Strip(pre + core + post) == core
  {
    assert pre + core + post == pre + (core + post);
    TrimStartSkipsSpace(pre, core + post);
    if core == [] {
      assert core + post == post + [];
      TrimStartSkipsSpace(post, []);
    } else {
      assert TrimStart(core + post) == core + post;
      TrimEndSkipsSpace(core, post);
    }
  }

  /** Stripping twice is stripping once. */
  lemma {:induction false} StripIdempotent(s: string)
    ensures Strip(Strip(s)) == Strip(s)
  {
    StripUnique([], Strip(s), []);
    assert [] + Strip(s) + [] == Strip(s);
  }

  /** `sep.join(pieces)`; joining no pieces gives the empty string. */
  function Join(pieces: seq<string>, sep: char): string {
    if |pieces| == 0 then []
    else if |pieces| == 1 then pieces[0]
    else pieces[0] + [sep] + Join(pieces[1..], sep)
  }

  /** Every character of a joined string is the separator or comes from one of the pieces. */
  lemma {:induction false} JoinChars(pieces: seq<string>, sep: char, c: char)
    requires c in Join(pieces, sep)
    ensures c == sep || exists k :: 0 <= k < |pieces| && c in pieces[k]
  {
    if |pieces| > 1 {
      if c !in pieces[0] && c != sep {
        JoinChars(pieces[1..], sep, c);
        var k :| 0 <= k < |pieces| - 1 && c in pieces[1..][k];
        assert c in pieces[k + 1];
      }
    }
  }

  /**
   * `s.split(sep)` for a one-character separator: the pieces between separators, empty
   * pieces included (`"".split(",") == [""]`, `"A,,B".split(",") == ["A", "", "B"]`).
   */
  function Split(s: string, sep: char): (r: seq<string>)
    ensures |r| >= 1
  {
    if s == [] then [[]]
    else
      var rest := Split(s[1..], sep);
      if s[0] == sep then [[]] + rest
      else [[s[0]] + rest[0]] + rest[1..]
  }

  /** Joining the pieces with the separator gives back the split string. */
  lemma {:induction false} JoinSplit(s: string, sep: char)
    ensures Join(Split(s, sep), sep) == s
  {
    if s != [] {
      var rest := Split(s[1..], sep);
      JoinSplit(s[1..], sep);
      if s[0] == sep {
        assert Split(s, sep) == [[]] + rest;
        assert ([[]] + rest)[1..] == rest;
      } else {
        var r := [[s[0]] + rest[0]] + rest[1..];
        assert Split(s, sep) == r;
        if |rest| > 1 {
          assert r[1..] == rest[1..];
          assert Join(rest, sep) == rest[0] + [sep] + Join(rest[1..], sep);
        }
      }
    }
  }

  /** Splitting `a + u` where `a` holds no separator glues `a` onto the first piece of `u`. */
  lemma {:induction false} SplitPrepend(a: string, u: string, sep: char)
    requires sep !in a
    ensures Split(a + u, sep) == [a + Split(u, sep)[0]] + Split(u, sep)[1..]
  {
    var rest := Split(u, sep);
    assert rest == [rest[0]] + rest[1..];
    if a == [] {
      assert a + u == u && a + rest[0] == rest[0];
    } else {
      SplitPrepend(a[1..], u, sep);
      assert (a + u)[1..] == a[1..] + u;
      assert [a[0]] + (a[1..] + Split(u, sep)[0]) == a + Split(u, sep)[0];
    }
  }

  /** A value without a separator splits into itself alone. */
  lemma {:induction false} SplitWithoutSeparator(s: string, sep: char)
    requires sep !in s
    ensures Split(s, sep) == [s]
  {
    SplitPrepend(s, [], sep);
    assert s + [] == s;
  }

  /** Splitting undoes joining when no piece holds the separator. */
  lemma {:induction false} SplitJoin(pieces: seq<string>, sep: char)
    requires |pieces| >= 1
    requires forall k :: 0 <= k < |pieces| ==> sep !in pieces[k]
    ensures Split(Join(pieces, sep), sep) == pieces
  {
    if |pieces| == 1 {
      SplitWithoutSeparator(pieces[0], sep);
    } else {
      var head, rest := pieces[0], pieces[1..];
      var tail := Join(rest, sep);
      assert Join(pieces, sep) == head + ([sep] + tail);
      assert Split([sep] + tail, sep) == [[]] + rest by {
        assert ([sep] + tail)[0] == sep && ([sep] + tail)[1..] == tail;
        assert forall k :: 0 <= k < |rest| ==> sep !in rest[k] by {
          forall k | 0 <= k < |rest| ensures sep !in rest[k] {
            assert rest[k] == pieces[k + 1];
          }
        }
        SplitJoin(rest, sep);
      }
      SplitPrepend(head, [sep] + tail, sep);
      assert head + [] == head;
      assert pieces == [head] + rest;
    }
  }

  /** Python's `p in s` on strings: `p` occurs in `s` as a contiguous substring. */
  predicate Contains(s: string, p: string)
    decreases |s|
  {
    (|p| <= |s| && s[..|p|] == p) || (s != [] && Contains(s[1..], p))
  }

  /** `p` occurs in `s` starting at position `k`. */
  ghost predicate OccursAt(s: string, p: string, k: int) {
    0 <= k && k + |p| <= |s| && s[k..k + |p|] == p
  }

  /** The substring test agrees with the positional definition of an occurrence. */
  lemma {:induction false} ContainsAt(s: string, p: string)
    ensures Contains(s, p) <==> exists k :: OccursAt(s, p, k)
  {
    if |p| <= |s| && s[..|p|] == p {
      assert OccursAt(s, p, 0);
    }
    if s != [] {
      ContainsAt(s[1..], p);
      if Contains(s[1..], p) {
        var k :| OccursAt(s[1..], p, k);
        assert OccursAt(s, p, k + 1);
      }
      if k :| OccursAt(s, p, k) && k > 0 {
        assert OccursAt(s[1..], p, k - 1);
      }
    } else {
      if k :| OccursAt(s, p, k) {
        assert k == 0;
      }
    }
  }

  /** Python's `a < b` on `str`: lexicographic comparison of code points. */
  predicate Less(a: string, b: string) {
    if a == [] then b != []
    else if b == [] then false
    else if a[0] != b[0] then a[0] < b[0]
    else Less(a[1..], b[1..])
  }

  lemma {:induction false} LessIrreflexive(a: string)
    ensures !Less(a, a)
  {
    if a != [] {
      LessIrreflexive(a[1..]);
    }
  }

  lemma {:induction false} LessTransitive(a: string, b: string, c: string)
    requires Less(a, b) && Less(b, c)
    ensures Less(a, c)
  {
    if a != [] && a[0] == b[0] && b[0] == c[0] {
      LessTransitive(a[1..], b[1..], c[1..]);
    }
  }

  lemma {:induction false} LessTotal(a: string, b: string)
    requires a != b
    ensures Less(a, b) || Less(b, a)
  {
    if a != [] && b != [] && a[0] == b[0] {
      assert a == [a[0]] + a[1..] && b == [b[0]] + b[1..];
      LessTotal(a[1..], b[1..]);
    }
  }

  /** The order `sorted` uses on strings is a strict total order. */
  lemma {:induction false} LessIsStrictTotalOrder()
    ensures Collections.StrictTotalOrder(Less)
  {
    forall a ensures !Less(a, a) {
      LessIrreflexive(a);
    }
    forall a, b, c | Less(a, b) && Less(b, c) ensures Less(a, c) {
      LessTransitive(a, b, c);
    }
    forall a, b | a != b ensures Less(a, b) || Less(b, a) {
      LessTotal(a, b);
    }
  }

  /** `sorted(list(s))` for a set of strings: ascending by code point, without duplicates. */
  method SortedStrings(s: set<string>) returns (r: seq<string>)
    ensures Collections.Ascending(r, Less)
    ensures forall i, j :: 0 <= i < j < |r| ==> r[i] != r[j]
    ensures forall x :: x in r <==> x in s
  {
    LessIsStrictTotalOrder();
    r := Collections.SortSet(s, Less);
    Collections.AscendingHasNoDuplicates(r, Less);
  }
}
