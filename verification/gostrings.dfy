/**
 Go's `strings.Split` on a one-character separator and `strings.Contains`, which
 the check calls; `Index`, through which Go defines `Contains`; and `Join` and
 `Count`, which the contracts use to state what `Split` returns. Strings are
 sequences of characters.
 */
module GoStrings {

  /** Number of occurrences of the character `c` in `s` (strings.Count with a one-character separator). */
  function Count(s: string, c: char): nat
  {
    if |s| == 0 then 0
    else (if s[0] == c then 1 else 0) + Count(s[1..], c)
  }

  /** strings.Join: the elements of `xs` with `sep` between neighbours. */
  function Join(xs: seq<string>, sep: string): string
  {
    if |xs| == 0 then ""
    else if |xs| == 1 then xs[0]
    else xs[0] + sep + Join(xs[1..], sep)
  }

  /**
   strings.Split with a one-character separator: the pieces of `s` between
   occurrences of `sep`, in order. There is always one more piece than there are
   separators, so the empty string splits into one empty piece.
   */
  function Split(s: string, sep: char): (pieces: seq<string>)
    ensures |pieces| == Count(s, sep) + 1
    ensures forall k :: 0 <= k < |pieces| ==> sep !in pieces[k]
    ensures Join(pieces, [sep]) == s
    decreases |s|
  {
    if |s| == 0 then [""]
    else
      var rest := Split(s[1..], sep);
      if s[0] == sep then
        assert s == [sep] + s[1..];
        [""] + rest
      else
        var pieces := [[s[0]] + rest[0]] + rest[1..];
        assert pieces[1..] == rest[1..];
        assert Join(pieces, [sep]) == [s[0]] + Join(rest, [sep]) by {
          if |rest| > 1 {
            assert Join(rest, [sep]) == rest[0] + [sep] + Join(rest[1..], [sep]);
          }
        }
        assert s == [s[0]] + s[1..];
        pieces
  }

  /** Joining two non-empty lists puts one separator between their joins. */
  lemma {:induction false} JoinAppend(xs: seq<string>, ys: seq<string>, sep: string)
    requires |xs| > 0 && |ys| > 0
    ensures Join(xs + ys, sep) == Join(xs, sep) + sep + Join(ys, sep)
    decreases |xs|
  {
    if |xs| == 1 {
      assert (xs + ys)[1..] == ys;
    } else {
      JoinAppend(xs[1..], ys, sep);
      assert (xs + ys)[1..] == xs[1..] + ys;
    }
  }

  /** Splitting a string free of the separator gives back the string alone. */
  lemma {:induction false} SplitNoSeparator(a: string, c: char)
    requires c !in a
    ensures Split(a, c) == [a]
    decreases |a|
  {
    if |a| > 0 {
      SplitNoSeparator(a[1..], c);
      assert [a[0]] + a[1..] == a;
    }
  }

  /** Splitting stops the first piece at the first separator. */
  lemma {:induction false} SplitAtFirst(a: string, c: char, b: string)
    requires c !in a
    ensures Split(a + [c] + b, c) == [a] + Split(b, c)
    decreases |a|
  {
    var s := a + [c] + b;
    if |a| == 0 {
      assert s[1..] == b;
    } else {
      assert s[1..] == a[1..] + [c] + b;
      SplitAtFirst(a[1..], c, b);
      assert [a[0]] + a[1..] == a;
    }
  }

  /** Splitting undoes joining when no element holds the separator. */
  lemma {:induction false} SplitJoin(xs: seq<string>, c: char)
    requires |xs| > 0
    requires forall k :: 0 <= k < |xs| ==> c !in xs[k]
    ensures Split(Join(xs, [c]), c) == xs
    decreases |xs|
  {
    if |xs| == 1 {
      SplitNoSeparator(xs[0], c);
    } else {
      SplitJoin(xs[1..], c);
      SplitAtFirst(xs[0], c, Join(xs[1..], [c]));
      assert [xs[0]] + xs[1..] == xs;
    }
  }

  /** True when `sub` occurs in `s` starting at offset `i`. */
  ghost predicate OccursAt(s: string, sub: string, i: int)
  {
    0 <= i && i + |sub| <= |s| && s[i..i + |sub|] == sub
  }

  predicate HasPrefix(s: string, prefix: string)
  {
    |prefix| <= |s| && s[..|prefix|] == prefix
  }

  /** strings.Contains: `sub` is a substring of `s` (the empty string is a substring of anything). */
  predicate Contains(s: string, sub: string)
    ensures |sub| == 0 ==> Contains(s, sub)
    ensures Contains(s, sub) ==> |sub| <= |s|
    ensures HasPrefix(s, sub) ==> Contains(s, sub)
    decreases |s|
  {
    HasPrefix(s, sub) || (|s| > 0 && Contains(s[1..], sub))
  }

  /** The scanning definition of `Contains` agrees with "occurs at some offset". */
  lemma {:induction false} ContainsIff(s: string, sub: string)
    ensures Contains(s, sub) <==> exists i :: OccursAt(s, sub, i)
    decreases |s|
  {
    if HasPrefix(s, sub) {
      assert OccursAt(s, sub, 0);
    }
    if |s| > 0 {
      ContainsIff(s[1..], sub);
      if exists i :: OccursAt(s[1..], sub, i) {
        var i :| OccursAt(s[1..], sub, i);
        assert s[i + 1..i + 1 + |sub|] == s[1..][i..i + |sub|];
        assert OccursAt(s, sub, i + 1);
      }
      if exists i :: OccursAt(s, sub, i) {
        var i :| OccursAt(s, sub, i);
        if i > 0 {
          assert s[1..][i - 1..i - 1 + |sub|] == s[i..i + |sub|];
          assert OccursAt(s[1..], sub, i - 1);
        } else {
          assert HasPrefix(s, sub);
        }
      }
    } else {
      if exists i :: OccursAt(s, sub, i) {
        var i :| OccursAt(s, sub, i);
        assert |sub| == 0 && s[..0] == sub;
      }
    }
  }

  /**
   strings.Index: the offset of the first occurrence of `sub` in `s`, or -1.
   strings.Contains(s, sub) is defined in Go as Index(s, sub) >= 0.
   */
  method Index(s: string, sub: string) returns (k: int)
    ensures -1 <= k <= |s|
    ensures k == -1 <==> !Contains(s, sub)
    ensures k >= 0 ==> OccursAt(s, sub, k)
    ensures k >= 0 ==> forall j :: 0 <= j < k ==> !OccursAt(s, sub, j)
  {
    ContainsIff(s, sub);
    if |sub| > |s| {
      return -1;
    }
    var i := 0;
    while i <= |s| - |sub|
      invariant 0 <= i <= |s| - |sub| + 1
      invariant forall j :: 0 <= j < i ==> !OccursAt(s, sub, j)
    {
      if s[i..i + |sub|] == sub {
        assert OccursAt(s, sub, i);
        return i;
      }
      i := i + 1;
    }
    return -1;
  }

  /** A substring of `b` is a substring of any `a + b + c`. */
  lemma ContainsInside(a: string, b: string, c: string, sub: string)
    requires Contains(b, sub)
    ensures Contains(a + b + c, sub)
  {
    ContainsIff(b, sub);
    var i :| OccursAt(b, sub, i);
    var s := a + b + c;
    assert s[|a| + i..|a| + i + |sub|] == b[i..i + |sub|];
    assert OccursAt(s, sub, |a| + i);
    ContainsIff(s, sub);
  }

  /**
   A non-empty string free of the character `c` that occurs in `a + [c] + b`
   occurs in `a` or in `b`: no occurrence can straddle the `c`.
   */
  lemma ContainsAcross(a: string, c: char, b: string, sub: string)
    requires |sub| > 0 && c !in sub
    requires Contains(a + [c] + b, sub)
    ensures Contains(a, sub) || Contains(b, sub)
  {
    var s := a + [c] + b;
    ContainsIff(s, sub);
    var i :| OccursAt(s, sub, i);
    if i + |sub| <= |a| {
      assert s[i..i + |sub|] == a[i..i + |sub|];
      assert OccursAt(a, sub, i);
      ContainsIff(a, sub);
    } else {
      assert i > |a| by {
        if i <= |a| {
          OccurrenceCovers(s, sub, i, |a|);
        }
      }
      var j := i - |a| - 1;
      assert s[i..i + |sub|] == b[j..j + |sub|];
      assert OccursAt(b, sub, j);
      ContainsIff(b, sub);
    }
  }

  /** Every position an occurrence covers holds one of the characters of `sub`. */
  lemma OccurrenceCovers(s: string, sub: string, i: int, p: int)
    requires OccursAt(s, sub, i) && i <= p < i + |sub|
    ensures s[p] in sub
  {
    assert sub[p - i] == s[p];
  }

  /**
   Wrapping a string in two characters absent from a non-empty `sub` neither
   creates nor removes an occurrence of `sub`.
   */
  lemma ContainsBracketed(open: char, inner: string, close: char, sub: string)
    requires |sub| > 0 && open !in sub && close !in sub
    ensures Contains([open] + inner + [close], sub) <==> Contains(inner, sub)
  {
    var s := [open] + inner + [close];
    if Contains(s, sub) {
      var tail := inner + [close];
      assert s == "" + [open] + tail;
      ContainsAcross("", open, tail, sub);
      ContainsIff("", sub);
      assert tail == inner + [close] + "";
      ContainsAcross(inner, close, "", sub);
    }
    if Contains(inner, sub) {
      ContainsInside([open], inner, [close], sub);
    }
  }

  /** Every element of `xs` is a substring of `Join(xs, sep)`. */
  lemma {:induction false} JoinContainsElement(xs: seq<string>, sep: string, k: int)
    requires 0 <= k < |xs|
    ensures Contains(Join(xs, sep), xs[k])
    decreases |xs|
  {
    if |xs| == 1 {
      ContainsInside("", xs[0], "", xs[0]);
      assert "" + xs[0] + "" == xs[0];
    } else if k == 0 {
      ContainsInside("", xs[0], sep + Join(xs[1..], sep), xs[0]);
      assert "" + xs[0] + (sep + Join(xs[1..], sep)) == Join(xs, sep);
    } else {
      JoinContainsElement(xs[1..], sep, k - 1);
      ContainsInside(xs[0] + sep, Join(xs[1..], sep), "", xs[k]);
      assert xs[0] + sep + Join(xs[1..], sep) + "" == Join(xs, sep);
    }
  }

  /**
   A non-empty string free of the separator character `c` is a substring of
   `Join(xs, [c])` exactly when it is a substring of one of the elements.
   */
  lemma {:induction false} JoinContainsIff(xs: seq<string>, c: char, sub: string)
    requires |sub| > 0 && c !in sub
    ensures Contains(Join(xs, [c]), sub) <==> exists k :: 0 <= k < |xs| && Contains(xs[k], sub)
    decreases |xs|
  {
    if exists k :: 0 <= k < |xs| && Contains(xs[k], sub) {
      var k :| 0 <= k < |xs| && Contains(xs[k], sub);
      JoinContainsElement(xs, [c], k);
      ContainsTransitive(Join(xs, [c]), xs[k], sub);
    }
    if Contains(Join(xs, [c]), sub) {
      if |xs| == 0 {
        ContainsIff("", sub);
        assert false;
      } else if |xs| == 1 {
        assert Contains(xs[0], sub);
      } else {
        assert Join(xs, [c]) == xs[0] + [c] + Join(xs[1..], [c]);
        ContainsAcross(xs[0], c, Join(xs[1..], [c]), sub);
        if !Contains(xs[0], sub) {
          JoinContainsIff(xs[1..], c, sub);
          var k :| 0 <= k < |xs[1..]| && Contains(xs[1..][k], sub);
          assert Contains(xs[k + 1], sub);
        }
      }
    }
  }

  /** Containment is transitive. */
  lemma ContainsTransitive(s: string, mid: string, sub: string)
    requires Contains(s, mid) && Contains(mid, sub)
    ensures Contains(s, sub)
  {
    ContainsIff(s, mid);
    ContainsIff(mid, sub);
    var i :| OccursAt(s, mid, i);
    var j :| OccursAt(mid, sub, j);
    forall t | 0 <= t < |sub|
      ensures s[i + j + t] == sub[t]
    {
      assert sub[t] == mid[j + t] == s[i..i + |mid|][j + t];
    }
    assert s[i + j..i + j + |sub|] == sub;
    assert OccursAt(s, sub, i + j);
    ContainsIff(s, sub);
  }

  /** A string contains another of its own length only when the two are equal. */
  lemma ContainsSameLength(s: string, sub: string)
    requires |s| == |sub|
    ensures Contains(s, sub) <==> s == sub
  {
    ContainsIff(s, sub);
    if s == sub {
      assert OccursAt(s, sub, 0);
    }
  }
}
