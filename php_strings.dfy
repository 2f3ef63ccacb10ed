/**
  The string operations the transport relies on -- the PHP built-ins
  `str_replace` and `implode`, the framework helper `str_contains`, and PHP
  truthiness of a nullable string -- together with the inverse views (`LastIndexOf`, `Split`) used to state what their
  results mean. Strings are sequences of characters; no encoding is modelled.
 */
module PhpStrings {
  import opened Optional

  /** PHP truthiness of a string that may be null: null, "" and "0" are false. */
  predicate Truthy(s: Option<string>) {
    s.Some? && s.value != "" && s.value != "0"
  }

  // ---------------------------------------------------------------------------
  // str_contains

  /** `p` occurs in `s` starting at index `i`. */
  predicate OccursAt(s: string, p: string, i: int) {
    0 <= i && i + |p| <= |s| && s[i..i + |p|] == p
  }

  /**
    The framework helper `str_contains($s, $p)`, scanning `s` left to right.
    Like the helper, and unlike a plain substring test, it is false for an
    empty `p`.
   */
  function Contains(s: string, p: string): bool
    decreases |s|
  {
    if |p| == 0 || |s| < |p| then false
    else if s[..|p|] == p then true
    else Contains(s[1..], p)
  }

  /** The scan finds `p` exactly when `p` is non-empty and occurs somewhere in `s`. */
  lemma {:induction false} ContainsIffOccurs(s: string, p: string)
    ensures Contains(s, p) <==> |p| > 0 && exists i :: OccursAt(s, p, i)
    decreases |s|
  {
    if |p| == 0 || |s| < |p| {
    } else if s[..|p|] == p {
      assert OccursAt(s, p, 0);
    } else {
      ContainsIffOccurs(s[1..], p);
      if exists i :: OccursAt(s, p, i) {
        var i :| OccursAt(s, p, i);
        assert i != 0;
        assert OccursAt(s[1..], p, i - 1);
      }
      if exists i :: OccursAt(s[1..], p, i) {
        var i :| OccursAt(s[1..], p, i);
        assert OccursAt(s, p, i + 1);
      }
    }
  }

  // ---------------------------------------------------------------------------
  // str_replace

  /**
    `str_replace($p, $r, $s)`: every occurrence of `p` in `s`, found left to
    right without overlap, is replaced by `r`. An empty `p` leaves `s` as it is.
   */
  function ReplaceAll(s: string, p: string, r: string): string
    decreases |s|
  {
    if |p| == 0 || |s| < |p| then s
    else if s[..|p|] == p then r + ReplaceAll(s[|p|..], p, r)
    else [s[0]] + ReplaceAll(s[1..], p, r)
  }

  /** A string that does not contain `p` is left unchanged. */
  lemma {:induction false} ReplaceAllAbsent(s: string, p: string, r: string)
    requires !Contains(s, p)
    ensures ReplaceAll(s, p, r) == s
    decreases |s|
  {
    if |p| == 0 || |s| < |p| {
    } else {
      ReplaceAllAbsent(s[1..], p, r);
    }
  }

  /** Occurrences in `s[1..]` are those in `s`, one index earlier. */
  lemma OccursAtTail(s: string, p: string, j: int)
    requires |s| > 0 && j >= 0
    ensures OccursAt(s[1..], p, j) <==> OccursAt(s, p, j + 1)
  {
    if 0 <= j && j + |p| <= |s| - 1 {
      assert s[1..][j..j + |p|] == s[j + 1..j + 1 + |p|];
    }
  }

  /** One step of `ReplaceAll` at an occurrence. */
  lemma ReplaceAllMatch(s: string, p: string, r: string)
    requires 0 < |p| <= |s| && s[..|p|] == p
    ensures ReplaceAll(s, p, r) == r + ReplaceAll(s[|p|..], p, r)
  {
  }

  /** One step of `ReplaceAll` past a character that starts no occurrence. */
  lemma ReplaceAllSkip(s: string, p: string, r: string)
    requires 0 < |p| <= |s| && s[..|p|] != p
    ensures ReplaceAll(s, p, r) == [s[0]] + ReplaceAll(s[1..], p, r)
  {
  }

  /**
    The first occurrence: when no occurrence of `p` starts inside `a`, the text
    `a` is kept, the `p` after it becomes `r`, and the replacement goes on in `b`.
   */
  lemma {:induction false} ReplaceAllFirst(a: string, p: string, b: string, r: string)
    requires |p| > 0
    requires forall j :: 0 <= j < |a| ==> !OccursAt(a + p + b, p, j)
    ensures ReplaceAll(a + p + b, p, r) == a + r + ReplaceAll(b, p, r)
    decreases |a|
  {
    var s := a + p + b;
    if |a| == 0 {
      assert s[..|p|] == p;
      assert s[|p|..] == b;
      ReplaceAllMatch(s, p, r);
    } else {
      var a' := a[1..];
      assert !OccursAt(s, p, 0);
      ReplaceAllSkip(s, p, r);
      assert s[1..] == a' + p + b;
      forall j | 0 <= j < |a'|
        ensures !OccursAt(a' + p + b, p, j)
      {
        OccursAtTail(s, p, j);
      }
      ReplaceAllFirst(a', p, b, r);
      assert [s[0]] + (a' + r + ReplaceAll(b, p, r)) == a + r + ReplaceAll(b, p, r);
    }
  }

  /** Replacing `p` by itself changes nothing. */
  lemma {:induction false} ReplaceAllSelf(s: string, p: string)
    ensures ReplaceAll(s, p, p) == s
    decreases |s|
  {
    if |p| == 0 || |s| < |p| {
    } else if s[..|p|] == p {
      ReplaceAllSelf(s[|p|..], p);
      assert s[..|p|] + s[|p|..] == s;
    } else {
      ReplaceAllSelf(s[1..], p);
      assert [s[0]] + s[1..] == s;
    }
  }

  /** No character of `r` occurs in `p`. */
  predicate Disjoint(p: string, r: string) {
    forall c :: c in r ==> c !in p
  }

  /**
    A prefix of the result that holds no character of a non-empty `r` was
    copied unchanged from the input.
   */
  lemma {:induction false} KeptPrefix(t: string, p: string, r: string, m: nat)
    requires |p| > 0 && |r| > 0
    requires m <= |ReplaceAll(t, p, r)|
    ensures (forall j :: 0 <= j < m ==> ReplaceAll(t, p, r)[j] !in r) ==>
              m <= |t| && ReplaceAll(t, p, r)[..m] == t[..m]
    decreases |t|
  {
    var out := ReplaceAll(t, p, r);
    if |t| < |p| {
    } else if t[..|p|] == p {
      if m > 0 {
        assert out[0] == r[0];
        assert r[0] in r;
      }
    } else if m > 0 {
      var u := ReplaceAll(t[1..], p, r);
      assert out == [t[0]] + u;
      KeptPrefix(t[1..], p, r, m - 1);
      if forall j :: 0 <= j < m ==> out[j] !in r {
        forall j | 0 <= j < m - 1
          ensures u[j] !in r
        {
          assert u[j] == out[j + 1];
        }
        assert out[..m] == [t[0]] + u[..m - 1];
        assert t[..m] == [t[0]] + t[1..][..m - 1];
      }
    }
  }

  /** A window that lies past a prefix `a` is a window of what follows it. */
  lemma WindowShift(a: string, b: string, p: string, k: int)
    requires k >= |a|
    ensures OccursAt(a + b, p, k) <==> OccursAt(b, p, k - |a|)
  {
    if k + |p| <= |a + b| {
      assert (a + b)[k..k + |p|] == b[k - |a|..k - |a| + |p|];
    }
  }

  /** A window that starts inside `r` begins with a character of `r`, so it is not `p`. */
  lemma WindowInReplacement(r: string, rest: string, p: string, k: int)
    requires |p| > 0 && Disjoint(p, r) && 0 <= k < |r|
    ensures !OccursAt(r + rest, p, k)
  {
    var out := r + rest;
    assert out[k] == r[k];
    assert r[k] in r;
    assert p[0] in p;
    assert k + |p| <= |out| ==> out[k..k + |p|][0] == out[k];
  }

  /** After a skipped character, the window at 0 is not `p`. */
  lemma WindowAtSkip(s: string, p: string, r: string)
    requires 0 < |p| <= |s| && |r| > 0 && Disjoint(p, r) && s[..|p|] != p
    ensures !OccursAt([s[0]] + ReplaceAll(s[1..], p, r), p, 0)
  {
    var u := ReplaceAll(s[1..], p, r);
    var out := [s[0]] + u;
    if |p| <= |out| {
      KeptPrefix(s[1..], p, r, |p| - 1);
      if forall j :: 0 <= j < |p| - 1 ==> u[j] !in r {
        assert out[..|p|] == [s[0]] + u[..|p| - 1];
        assert s[..|p|] == [s[0]] + s[1..][..|p| - 1];
      } else {
        var j :| 0 <= j < |p| - 1 && u[j] in r;
        assert out[j + 1] == u[j];
        assert p[j + 1] in p;
        assert out[..|p|][j + 1] == out[j + 1];
      }
    }
  }

  /**
    When the replacement is non-empty and shares no character with `p`, the
    result holds no occurrence of `p` at position `k`.
   */
  lemma {:induction false} ReplaceAllRemovesAt(s: string, p: string, r: string, k: int)
    requires |p| > 0 && |r| > 0 && Disjoint(p, r)
    ensures !OccursAt(ReplaceAll(s, p, r), p, k)
    decreases |s|
  {
    if |s| < |p| {
    } else if s[..|p|] == p {
      ReplaceAllMatch(s, p, r);
      var rest := ReplaceAll(s[|p|..], p, r);
      if 0 <= k < |r| {
        WindowInReplacement(r, rest, p, k);
      } else if k >= |r| {
        ReplaceAllRemovesAt(s[|p|..], p, r, k - |r|);
        WindowShift(r, rest, p, k);
      }
    } else {
      ReplaceAllSkip(s, p, r);
      var u := ReplaceAll(s[1..], p, r);
      if k >= 1 {
        ReplaceAllRemovesAt(s[1..], p, r, k - 1);
        WindowShift([s[0]], u, p, k);
      } else if k == 0 {
        WindowAtSkip(s, p, r);
      }
    }
  }

  /** Corollary: no occurrence of `p` is left anywhere in the result. */
  lemma ReplaceAllRemoves(s: string, p: string, r: string)
    requires |p| > 0 && |r| > 0 && Disjoint(p, r)
    ensures !Contains(ReplaceAll(s, p, r), p)
  {
    var out := ReplaceAll(s, p, r);
    ContainsIffOccurs(out, p);
    forall k
      ensures !OccursAt(out, p, k)
    {
      ReplaceAllRemovesAt(s, p, r, k);
    }
  }

  /**
    The condition above cannot be weakened to "`r` does not contain `p`": the
    tail of `r` and the text after an occurrence can form `p` again.
   */
  lemma ReplaceAllCanReform()
    ensures !Contains("a", "ab")
    ensures ReplaceAll("abb", "ab", "a") == "ab" && Contains("ab", "ab")
  {
    assert "abb"[..2] == "ab";
    assert "abb"[2..] == "b";
    assert ReplaceAll("b", "ab", "a") == "b";
    assert "ab"[..2] == "ab";
  }

  // ---------------------------------------------------------------------------
  // implode and its inverse

  /** Index of the last occurrence of `c` in `s`. */
  function LastIndexOf(s: string, c: char): (r: Option<nat>)
    ensures r.Some? ==> r.value < |s| && s[r.value] == c && c !in s[r.value + 1..]
    ensures r.None? ==> c !in s
  {
    if |s| == 0 then None
    else if s[|s| - 1] == c then Some(|s| - 1)
    else
      var r := LastIndexOf(s[..|s| - 1], c);
      assert r.Some? ==> s[r.value + 1..] == s[..|s| - 1][r.value + 1..] + [s[|s| - 1]];
      assert s == s[..|s| - 1] + [s[|s| - 1]];
      r
  }

  /** The last `c` of `x + [c] + y`, when `y` holds none, is the one after `x`. */
  lemma {:induction false} LastIndexOfAfter(x: string, c: char, y: string)
    requires c !in y
    ensures LastIndexOf(x + [c] + y, c) == Some(|x|)
    decreases |y|
  {
    var s := x + [c] + y;
    if |y| > 0 {
      assert y[|y| - 1] in y;
      assert s[..|s| - 1] == x + [c] + y[..|y| - 1];
      LastIndexOfAfter(x, c, y[..|y| - 1]);
    }
  }

  /** `implode($sep, $xs)`. */
  function Join(xs: seq<string>, sep: char): string
  {
    if |xs| == 0 then ""
    else if |xs| == 1 then xs[0]
    else Join(xs[..|xs| - 1], sep) + [sep] + xs[|xs| - 1]
  }

  /** `explode($sep, $s)`: the pieces between the separators, none of which holds one. */
  function Split(s: string, sep: char): (r: seq<string>)
    ensures |r| > 0
    ensures forall i :: 0 <= i < |r| ==> sep !in r[i]
    decreases |s|
  {
    match LastIndexOf(s, sep)
    case None => [s]
    case Some(k) => Split(s[..k], sep) + [s[k + 1..]]
  }

  /** Joining the pieces of a split gives the string back, for every string. */
  lemma {:induction false} SplitJoin(s: string, sep: char)
    ensures Join(Split(s, sep), sep) == s
    decreases |s|
  {
    match LastIndexOf(s, sep)
    case None =>
    case Some(k) =>
      var pieces := Split(s[..k], sep);
      SplitJoin(s[..k], sep);
      var all := pieces + [s[k + 1..]];
      assert all[..|all| - 1] == pieces;
      assert s == s[..k] + [sep] + s[k + 1..];
  }

  /** Splitting a join gives the list back when no item holds the separator. */
  lemma {:induction false} JoinSplit(xs: seq<string>, sep: char)
    requires |xs| > 0
    requires forall i :: 0 <= i < |xs| ==> sep !in xs[i]
    ensures Split(Join(xs, sep), sep) == xs
    decreases |xs|
  {
    if |xs| > 1 {
      var init := xs[..|xs| - 1];
      var last := xs[|xs| - 1];
      var j := Join(init, sep);
      JoinSplit(init, sep);
      LastIndexOfAfter(j, sep, last);
      var s := j + [sep] + last;
      assert s[..|j|] == j;
      assert s[|j| + 1..] == last;
      assert init + [last] == xs;
    }
  }

  /** Joining two non-empty lists puts one separator between their joins. */
  lemma {:induction false} JoinAppend(xs: seq<string>, ys: seq<string>, sep: char)
    requires |xs| > 0 && |ys| > 0
    ensures Join(xs + ys, sep) == Join(xs, sep) + [sep] + Join(ys, sep)
    decreases |ys|
  {
    var all := xs + ys;
    if |ys| == 1 {
      assert all[..|all| - 1] == xs;
    } else {
      var init := ys[..|ys| - 1];
      JoinAppend(xs, init, sep);
      assert all[..|all| - 1] == xs + init;
    }
  }
}
