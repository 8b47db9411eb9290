/**
 * The few `java.lang.String` operations the web worker relies on, written as
 * pure functions over `seq<char>`: `startsWith`/`endsWith`, `contains`,
 * `split` on a one-character separator, and `replace` of a literal.
 */
module JavaText {

  /** `s.endsWith(suffix)` */
  predicate EndsWith(s: string, suffix: string) {
    |suffix| <= |s| && s[|s| - |suffix|..] == suffix
  }

  /** `s.contains(w)`: some suffix of `s` starts with `w`. */
  predicate Contains(s: string, w: string)
    decreases |s|
  {
    w <= s || (|s| > 0 && Contains(s[1..], w))
  }

  lemma {:induction false} ContainsLength(s: string, w: string)
    requires Contains(s, w)
    ensures |w| <= |s|
    decreases |s|
  {
    if !(w <= s) {
      ContainsLength(s[1..], w);
    }
  }

  /** `w` occurs in `s` starting at index `i`. */
  predicate OccursAt(s: string, w: string, i: int) {
    0 <= i <= |s| - |w| && s[i..i + |w|] == w
  }

  /** `Contains` agrees with the index-based reading of `s.indexOf(w) >= 0`. */
  lemma {:induction false} ContainsIffOccurrence(s: string, w: string)
    ensures Contains(s, w) <==> exists i :: OccursAt(s, w, i)
    decreases |s|
  {
    if w <= s {
      assert OccursAt(s, w, 0);
    } else if |s| > 0 {
      ContainsIffOccurrence(s[1..], w);
      if Contains(s[1..], w) {
        var i :| OccursAt(s[1..], w, i);
        assert s[i + 1..i + 1 + |w|] == s[1..][i..i + |w|];
        assert OccursAt(s, w, i + 1);
      }
      if exists i :: OccursAt(s, w, i) {
        var i :| OccursAt(s, w, i);
        if i > 0 {
          assert s[1..][i - 1..i - 1 + |w|] == s[i..i + |w|];
          assert OccursAt(s[1..], w, i - 1);
        }
      }
    }
  }

  /** A string that is contained in a suffix is contained in the whole. */
  lemma {:induction false} ContainsSuffix(s: string, k: nat, w: string)
    requires k <= |s| && Contains(s[k..], w)
    ensures Contains(s, w)
    decreases k
  {
    if k > 0 {
      assert s[k..] == s[1..][k - 1..];
      ContainsSuffix(s[1..], k - 1, w);
    }
  }

  /**
   * A string whose first character does not occur in `a` is contained in
   * `a + b` only if it is contained in `b`.
   */
  lemma {:induction false} ContainsAfterPrefix(a: string, b: string, w: string)
    requires |w| > 0 && w[0] !in a
    requires Contains(a + b, w)
    ensures Contains(b, w)
    decreases |a|
  {
    if |a| == 0 {
      assert a + b == b;
    } else {
      assert !(w <= a + b);
      assert (a + b)[1..] == a[1..] + b;
      ContainsAfterPrefix(a[1..], b, w);
    }
  }

  /** Index of the first occurrence of `c` in `s` (`s.indexOf(c)` when found). */
  function FirstIndex<T(==)>(s: seq<T>, c: T): (k: nat)
    requires c in s
    ensures k < |s| && s[k] == c && c !in s[..k]
  {
    if s[0] == c then 0
    else
      var k := FirstIndex(s[1..], c);
      assert s[..k + 1] == [s[0]] + s[1..][..k];
      k + 1
  }

  /**
   * Every piece of `s` between occurrences of `sep`, empty ones included:
   * the raw result of splitting before any trailing pieces are dropped.
   */
  function Pieces(s: string, sep: char): (r: seq<string>)
    ensures |r| >= 1
    ensures forall i :: 0 <= i < |r| ==> sep !in r[i]
    decreases |s|
  {
    if sep !in s then [s]
    else
      var k := FirstIndex(s, sep);
      [s[..k]] + Pieces(s[k + 1..], sep)
  }

  /** `String.join(sep, ps)`. */
  function Join(ps: seq<string>, sep: char): string {
    if |ps| <= 1 then (if ps == [] then "" else ps[0])
    else ps[0] + [sep] + Join(ps[1..], sep)
  }

  /** Splitting at a separator preceded by a separator-free piece. */
  lemma PiecesCons(a: string, sep: char, b: string)
    requires sep !in a
    ensures Pieces(a + [sep] + b, sep) == [a] + Pieces(b, sep)
  {
    var s := a + [sep] + b;
    assert s[|a|] == sep;
    var k := FirstIndex(s, sep);
    assert s[..k] == a && s[k + 1..] == b;
  }

  /** Joining the pieces of `s` gives `s` back. */
  lemma {:induction false} JoinPieces(s: string, sep: char)
    ensures Join(Pieces(s, sep), sep) == s
    decreases |s|
  {
    if sep in s {
      var k := FirstIndex(s, sep);
      JoinPieces(s[k + 1..], sep);
      assert s == s[..k] + [sep] + s[k + 1..];
    }
  }

  /** Splitting a join of separator-free pieces gives the pieces back. */
  lemma {:induction false} PiecesJoin(ps: seq<string>, sep: char)
    requires |ps| >= 1
    requires forall i :: 0 <= i < |ps| ==> sep !in ps[i]
    ensures Pieces(Join(ps, sep), sep) == ps
    decreases |ps|
  {
    if |ps| > 1 {
      PiecesCons(ps[0], sep, Join(ps[1..], sep));
      PiecesJoin(ps[1..], sep);
      assert ps == [ps[0]] + ps[1..];
    }
  }

  /** Removes the empty strings at the end of `ps`. */
  function DropTrailingEmpty(ps: seq<string>): (r: seq<string>)
    ensures r <= ps
    ensures forall i :: |r| <= i < |ps| ==> ps[i] == ""
    ensures r == [] || r[|r| - 1] != ""
    decreases |ps|
  {
    if ps == [] || ps[|ps| - 1] != "" then ps
    else DropTrailingEmpty(ps[..|ps| - 1])
  }

  /**
   * `s.split(regex)` for a one-character regex `sep` and limit 0: when `sep`
   * does not occur the result is `[s]` (so `""` gives `[""]`); otherwise it is
   * the pieces with every trailing empty piece removed (so `" "` gives `[]`),
   * leading empty pieces kept.
   */
  function JavaSplit(s: string, sep: char): (r: seq<string>)
    ensures forall i :: 0 <= i < |r| ==> sep !in r[i]
    ensures sep !in s ==> r == [s]
    ensures sep in s ==> r <= Pieces(s, sep) && (r == [] || r[|r| - 1] != "")
    ensures sep in s ==> forall i :: |r| <= i < |Pieces(s, sep)| ==> Pieces(s, sep)[i] == ""
  {
    if sep !in s then [s] else DropTrailingEmpty(Pieces(s, sep))
  }

  /**
   * Splitting the join of separator-free tokens gives them back, provided
   * that there is one token or the last one is not empty.
   */
  lemma JavaSplitJoin(ps: seq<string>, sep: char)
    requires |ps| >= 1
    requires forall i :: 0 <= i < |ps| ==> sep !in ps[i]
    requires |ps| == 1 || ps[|ps| - 1] != ""
    ensures JavaSplit(Join(ps, sep), sep) == ps
  {
    if |ps| > 1 {
      assert Join(ps, sep)[|ps[0]|] == sep;
      PiecesJoin(ps, sep);
    }
  }

  /**
   * `s.replace(t, u)` for a non-empty literal `t`: every occurrence of `t`,
   * scanning left to right without overlap, becomes `u`.
   */
  function Replace(s: string, t: string, u: string): string
    requires |t| > 0
    decreases |s|
  {
    if |s| < |t| then s
    else if t <= s then u + Replace(s[|t|..], t, u)
    else [s[0]] + Replace(s[1..], t, u)
  }

  /** Text without an occurrence of `t` is left unchanged. */
  lemma {:induction false} ReplaceAbsent(s: string, t: string, u: string)
    requires |t| > 0 && !Contains(s, t)
    ensures Replace(s, t, u) == s
    decreases |s|
  {
    if |s| >= |t| {
      ReplaceAbsent(s[1..], t, u);
      assert s == [s[0]] + s[1..];
    }
  }

  /** A prefix of `t`'s first character's complement passes through unchanged. */
  lemma {:induction false} ReplaceSkipsPlain(a: string, b: string, t: string, u: string)
    requires |t| > 0 && t[0] !in a
    ensures Replace(a + b, t, u) == a + Replace(b, t, u)
    decreases |a|
  {
    if |a| == 0 {
      assert a + b == b;
    } else {
      var s := a + b;
      assert s[0] == a[0];
      assert s[1..] == a[1..] + b;
      ReplaceSkipsPlain(a[1..], b, t, u);
      if |s| >= |t| {
        assert !(t <= s);
      } else {
        ReplaceAbsentShort(b, t, u, |s|);
        assert s == [a[0]] + (a[1..] + b);
      }
    }
  }

  lemma ReplaceAbsentShort(b: string, t: string, u: string, n: nat)
    requires |t| > 0 && |b| <= n < |t|
    ensures Replace(b, t, u) == b
  {
  }

  /** An occurrence of `t` at the start is replaced by `u`. */
  lemma ReplaceHead(b: string, t: string, u: string)
    requires |t| > 0
    ensures Replace(t + b, t, u) == u + Replace(b, t, u)
  {
    assert (t + b)[|t|..] == b;
  }

  /**
   * If the result of a replacement starts with `v`, and no block `u` can sit
   * at the end of `v` or inside it, then the original text starts with `v`.
   */
  lemma {:induction false} ReplacePrefix(s: string, t: string, u: string, v: string)
    requires |t| > 0
    requires |v| > 0 ==> v[|v| - 1] !in u
    requires !Contains(v, u)
    requires v <= Replace(s, t, u)
    ensures v <= s
    decreases |s|
  {
    if |v| > 0 && |s| >= |t| {
      if !(t <= s) {
        assert v[1..] <= Replace(s[1..], t, u);
        if |v| > 1 {
          assert v[1..][|v[1..]| - 1] == v[|v| - 1];
        }
        ReplacePrefix(s[1..], t, u, v[1..]);
        assert v == [s[0]] + v[1..];
      }
    }
  }

  /**
   * When the replacement neither contains `t`'s first or last character nor
   * occurs inside `t`, no occurrence of `t` is left in the result.
   */
  lemma {:induction false} ReplaceRemovesAll(s: string, t: string, u: string)
    requires |t| > 0 && t[0] !in u && t[|t| - 1] !in u && !Contains(t, u)
    ensures !Contains(Replace(s, t, u), t)
    decreases |s|
  {
    var r := Replace(s, t, u);
    if |s| < |t| {
      if Contains(r, t) { ContainsLength(r, t); }
    } else if t <= s {
      ReplaceRemovesAll(s[|t|..], t, u);
      if Contains(r, t) {
        ContainsAfterPrefix(u, Replace(s[|t|..], t, u), t);
      }
    } else {
      ReplaceRemovesAll(s[1..], t, u);
      assert r[1..] == Replace(s[1..], t, u);
      if t <= r {
        var v := t[1..];
        assert v <= Replace(s[1..], t, u);
        if |v| > 0 {
          assert v[|v| - 1] == t[|t| - 1];
        }
        ReplacePrefix(s[1..], t, u, v);
      }
    }
  }

  /**
   * A replacement creates no new occurrence of `w` when the replacement text
   * neither contains `w`'s first or last character nor occurs inside `w`.
   */
  lemma {:induction false} ReplaceAddsNone(s: string, t: string, u: string, w: string)
    requires |t| > 0 && |w| > 0
    requires w[0] !in u && w[|w| - 1] !in u && !Contains(w, u)
    requires Contains(Replace(s, t, u), w)
    ensures Contains(s, w)
    decreases |s|
  {
    var r := Replace(s, t, u);
    if |s| >= |t| {
      if t <= s {
        ContainsAfterPrefix(u, Replace(s[|t|..], t, u), w);
        ReplaceAddsNone(s[|t|..], t, u, w);
        ContainsSuffix(s, |t|, w);
      } else {
        assert r[1..] == Replace(s[1..], t, u);
        if w <= r {
          var v := w[1..];
          assert v <= Replace(s[1..], t, u);
          if |v| > 0 {
            assert v[|v| - 1] == w[|w| - 1];
          }
          ReplacePrefix(s[1..], t, u, v);
          assert w == [s[0]] + v;
        } else {
          ReplaceAddsNone(s[1..], t, u, w);
          ContainsSuffix(s, 1, w);
        }
      }
    }
  }
}
