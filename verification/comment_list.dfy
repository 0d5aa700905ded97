/** The ordered comment collection and its removal rule.

    Comments are plain strings; duplicates are allowed and are distinct
    entries. Deleting a comment removes it by VALUE: every entry equal to the
    deleted text goes at once, and all other entries keep their relative
    order. */
module CommentList {

  /** `r` can be obtained from `s` by dropping some entries: the entries of `r`
      occur in `s` in the same order. */
  ghost predicate IsSubseq(r: seq<string>, s: seq<string>)
    decreases |s|
  {
    |r| == 0 ||
    (|s| > 0 && ((r[0] == s[0] && IsSubseq(r[1..], s[1..])) || IsSubseq(r, s[1..])))
  }

  /** The collection after deleting `v`: every entry that is not `v`. */
  function Remove(s: seq<string>, v: string): (r: seq<string>)
    ensures v !in r
    ensures forall x :: x in r <==> x in s && x != v
    ensures multiset(r) == multiset(s)[v := 0]
    ensures |r| == |s| - multiset(s)[v]
  {
    if |s| == 0 then []
    else
      assert s == [s[0]] + s[1..];
      var rest := Remove(s[1..], v);
      if s[0] == v then rest else [s[0]] + rest
  }

  /** A subsequence of `s` free of `v` is at most as long as `s` without its
      occurrences of `v`. */
  lemma {:induction false} FreeSubseqBound(r: seq<string>, s: seq<string>, v: string)
    requires IsSubseq(r, s)
    requires v !in r
    ensures |r| <= |s| - multiset(s)[v]
    decreases |s|
  {
    if |s| == 0 {
    } else {
      assert s == [s[0]] + s[1..];
      if |r| == 0 {
        assert |multiset(s)| == |s|;
      } else if r[0] == s[0] && IsSubseq(r[1..], s[1..]) {
        FreeSubseqBound(r[1..], s[1..], v);
      } else {
        FreeSubseqBound(r, s[1..], v);
      }
    }
  }

  /** Removal keeps the surviving entries in their original relative order. */
  lemma {:induction false} RemoveIsSubseq(s: seq<string>, v: string)
    ensures IsSubseq(Remove(s, v), s)
    decreases |s|
  {
    if |s| > 0 {
      RemoveIsSubseq(s[1..], v);
      var rest := Remove(s[1..], v);
      if s[0] != v {
        assert ([s[0]] + rest)[1..] == rest;
      } else if |rest| > 0 {
        assert IsSubseq(rest, s[1..]);
      }
    }
  }

  /** Removal is the ONLY order-preserving way to drop exactly the occurrences
      of `v`: any subsequence of `s` without `v` whose length is that of `s`
      minus the occurrences of `v` is the removal. */
  lemma {:induction false} RemoveUnique(s: seq<string>, v: string, r: seq<string>)
    requires IsSubseq(r, s)
    requires v !in r
    requires |r| == |s| - multiset(s)[v]
    ensures r == Remove(s, v)
    decreases |s|
  {
    if |s| > 0 {
      assert s == [s[0]] + s[1..];
      var t := s[1..];
      if s[0] == v {
        if |r| > 0 {
          assert r[0] != s[0];
        }
        RemoveUnique(t, v, r);
      } else if |r| == 0 {
        assert false;
      } else if r[0] == s[0] && IsSubseq(r[1..], t) {
        assert r == [r[0]] + r[1..];
        RemoveUnique(t, v, r[1..]);
      } else {
        FreeSubseqBound(r, t, v);
      }
    }
  }

  /** Removal characterised without reference to its definition: `r` is the
      result of deleting `v` from `s` exactly when `r` keeps the order of `s`,
      holds no `v`, and is shorter than `s` by the number of occurrences of `v`. */
  lemma {:induction false} RemoveCharacterized(s: seq<string>, v: string, r: seq<string>)
    ensures r == Remove(s, v) <==>
            (IsSubseq(r, s) && v !in r && |r| == |s| - multiset(s)[v])
  {
    if r == Remove(s, v) {
      RemoveIsSubseq(s, v);
    }
    if IsSubseq(r, s) && v !in r && |r| == |s| - multiset(s)[v] {
      RemoveUnique(s, v, r);
    }
  }

  /** Deleting a text that is not in the collection leaves it unchanged. */
  lemma {:induction false} RemoveAbsent(s: seq<string>, v: string)
    requires v !in s
    ensures Remove(s, v) == s
    decreases |s|
  {
    if |s| > 0 {
      assert s[0] != v;
      RemoveAbsent(s[1..], v);
      assert s == [s[0]] + s[1..];
    }
  }

  /** Deleting the same text twice is the same as deleting it once. */
  lemma RemoveIdempotent(s: seq<string>, v: string)
    ensures Remove(Remove(s, v), v) == Remove(s, v)
  {
    RemoveAbsent(Remove(s, v), v);
  }

  /** Removal works entry by entry over a collection split in two. */
  lemma {:induction false} RemoveAppend(a: seq<string>, b: seq<string>, v: string)
    ensures Remove(a + b, v) == Remove(a, v) + Remove(b, v)
    decreases |a|
  {
    if |a| == 0 {
      assert a + b == b;
    } else {
      assert (a + b)[1..] == a[1..] + b;
      RemoveAppend(a[1..], b, v);
    }
  }

  /** Deleting two texts gives the same collection in either order. */
  lemma {:induction false} RemoveCommutes(s: seq<string>, v: string, w: string)
    ensures Remove(Remove(s, v), w) == Remove(Remove(s, w), v)
    decreases |s|
  {
    if |s| > 0 {
      RemoveCommutes(s[1..], v, w);
      var a := Remove(s[1..], v);
      var b := Remove(s[1..], w);
      if s[0] != v {
        assert ([s[0]] + a)[1..] == a;
      }
      if s[0] != w {
        assert ([s[0]] + b)[1..] == b;
      }
    }
  }

  /** A comment appended last and then deleted by its own text leaves the
      earlier comments without that text. */
  lemma RemoveAfterAppend(s: seq<string>, x: string)
    ensures Remove(s + [x], x) == Remove(s, x)
  {
    RemoveAppend(s, [x], x);
    assert Remove([x], x) == [];
  }

  /** Deleting the seed comment from the initial collection empties it. */
  lemma RemoveOnlyEntry()
    ensures Remove(["Post muito boom!"], "Post muito boom!") == []
  {
  }
}
