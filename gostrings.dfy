/**
 The handful of Go `strings` functions that the job code relies on, restricted to
 the way it calls them: a one-character separator for `Index` and `SplitN(s, sep, 2)`,
 a cutset for the trimming functions, and ASCII-only lower-casing.
 Each is specified by what it computes rather than how.
 */
module GoStrings {

  /**
   `strings.Index(s, string(c))`: the character position of the first `c` in `s`,
   or -1. (Go returns a byte offset; the two agree on ASCII text, and the job code
   only compares the result with -1.)
   */
  function Index(s: string, c: char): (i: int)
    ensures -1 <= i < |s|
    ensures i == -1 <==> c !in s
    ensures 0 <= i ==> s[i] == c && c !in s[..i]
  {
    if s == [] then -1
    else if s[0] == c then 0
    else
      var j := Index(s[1..], c);
      if j == -1 then -1
      else
        assert s[..j + 1] == [s[0]] + s[1..][..j];
        j + 1
  }

  /**
   `strings.SplitN(s, string(sep), 2)`: `s` cut at its first `sep` into two parts,
   or `[s]` alone when `s` holds no `sep`. The first part never holds `sep`, and
   joining the two parts with `sep` gives `s` back.
   */
  function SplitN(s: string, sep: char): (parts: seq<string>)
    ensures |parts| == (if sep in s then 2 else 1)
    ensures sep !in parts[0]
    ensures sep !in s ==> parts[0] == s
    ensures sep in s ==> parts[0] + [sep] + parts[1] == s
  {
    var i := Index(s, sep);
    if i == -1 then [s]
    else
      assert s[..i] + [sep] + s[i + 1..] == s;
      [s[..i], s[i + 1..]]
  }

  /** Cutting `k + [sep] + v` at its first `sep` gives back `k` and `v` exactly when `k` holds no `sep`. */
  lemma SplitNJoin(k: string, sep: char, v: string)
    requires sep !in k
    ensures SplitN(k + [sep] + v, sep) == [k, v]
  {
    var s := k + [sep] + v;
    var i := Index(s, sep);
    assert s[|k|] == sep;
    if i < |k| {
      assert false;
    }
    if i > |k| {
      assert false;
    }
    assert s[..|k|] == k;
    assert s[|k| + 1..] == v;
  }

  /**
   When `k` itself holds `sep`, the text `k + [sep] + v` is cut inside `k`:
   the first part is the part of `k` before its own first `sep`, and the rest of
   `k` travels into the second part.
   */
  lemma SplitNInsideKey(k: string, sep: char, v: string)
    requires sep in k
    ensures SplitN(k + [sep] + v, sep) == [SplitN(k, sep)[0], SplitN(k, sep)[1] + [sep] + v]
    ensures SplitN(k + [sep] + v, sep)[0] != k
  {
    var s := k + [sep] + v;
    var i := Index(k, sep);
    var j := Index(s, sep);
    assert s[i] == sep;
    assert s[..i] == k[..i];
    if j < i {
      assert false;
    }
    if j > i {
      assert false;
    }
    assert s[i + 1..] == k[i + 1..] + [sep] + v;
  }

  /** `strings.TrimLeft(s, cutset)`: the longest suffix of `s` that does not start with a cutset character. */
  function TrimLeft(s: string, cutset: string): (r: string)
    ensures |r| <= |s| && r == s[|s| - |r|..]
    ensures forall k :: 0 <= k < |s| - |r| ==> s[k] in cutset
    ensures r == [] || r[0] !in cutset
  {
    if s != [] && s[0] in cutset then TrimLeft(s[1..], cutset) else s
  }

  /** `strings.TrimRight(s, cutset)`: the longest prefix of `s` that does not end with a cutset character. */
  function TrimRight(s: string, cutset: string): (r: string)
    ensures |r| <= |s| && r == s[..|r|]
    ensures forall k :: |r| <= k < |s| ==> s[k] in cutset
    ensures r == [] || r[|r| - 1] !in cutset
  {
    if s != [] && s[|s| - 1] in cutset then TrimRight(s[..|s| - 1], cutset) else s
  }

  /**
   `strings.Trim(s, cutset)`: `s` without its leading and trailing cutset characters.
   It is empty exactly when `s` consists of cutset characters only.
   */
  function Trim(s: string, cutset: string): (r: string)
    ensures |r| <= |s|
    ensures r == [] <==> forall k :: 0 <= k < |s| ==> s[k] in cutset
    ensures r == [] || (r[0] !in cutset && r[|r| - 1] !in cutset)
  {
    var t := TrimLeft(s, cutset);
    var r := TrimRight(t, cutset);
    assert t != [] ==> r != [];
    assert r != [] ==> r[0] == t[0];
    assert (forall k :: 0 <= k < |s| ==> s[k] in cutset) ==> t == [] by {
      if t != [] {
        assert s[|s| - |t|] == t[0];
      }
    }
    r
  }

  /**
   `Trim` keeps a contiguous slice of `s`: the result starts at position `i`,
   and everything before `i` and everything after the result is in the cutset.
   */
  lemma TrimSlice(s: string, cutset: string) returns (i: nat)
    ensures i + |Trim(s, cutset)| <= |s|
    ensures Trim(s, cutset) == s[i..i + |Trim(s, cutset)|]
    ensures forall k :: 0 <= k < i ==> s[k] in cutset
    ensures forall k :: i + |Trim(s, cutset)| <= k < |s| ==> s[k] in cutset
  {
    var t := TrimLeft(s, cutset);
    var r := TrimRight(t, cutset);
    assert r == Trim(s, cutset);
    i := |s| - |t|;
    SliceOfSlice(s, t, r, i, cutset);
  }

  /** A prefix `r` of the suffix `t` of `s` starting at `i` is the slice of `s` from `i`. */
  lemma SliceOfSlice(s: string, t: string, r: string, i: nat, cutset: string)
    requires i <= |s| && t == s[i..]
    requires |r| <= |t| && r == t[..|r|]
    requires forall k :: |r| <= k < |t| ==> t[k] in cutset
    ensures r == s[i..i + |r|]
    ensures forall k :: i + |r| <= k < |s| ==> s[k] in cutset
  {
    forall k | i + |r| <= k < |s|
      ensures s[k] in cutset
    {
      assert s[k] == t[k - i];
    }
  }

  /** A single character outside the cutset is kept by `Trim`. */
  lemma TrimSingle(c: char, cutset: string)
    requires c !in cutset
    ensures Trim([c], cutset) == [c]
  {
    assert TrimLeft([c], cutset) == [c];
    assert TrimRight([c], cutset) == [c];
  }

  /** Cutset characters added around `s` do not change what `Trim` keeps. */
  lemma {:induction false} TrimPadding(pre: string, s: string, post: string, cutset: string)
    requires forall k :: 0 <= k < |pre| ==> pre[k] in cutset
    requires forall k :: 0 <= k < |post| ==> post[k] in cutset
    ensures Trim(pre + s + post, cutset) == Trim(s, cutset)
  {
    assert pre + s + post == pre + (s + post);
    TrimLeftPadding(pre, s + post, cutset);
    var t := TrimLeft(s, cutset);
    if t == [] {
      TrimLeftAllCut(s, post, cutset);
      assert TrimLeft(pre + s + post, cutset) == [];
    } else {
      TrimLeftAppend(s, post, cutset);
      assert TrimLeft(pre + s + post, cutset) == t + post;
      TrimRightPadding(t, post, cutset);
    }
  }

  lemma {:induction false} TrimLeftPadding(pre: string, s: string, cutset: string)
    requires forall k :: 0 <= k < |pre| ==> pre[k] in cutset
    ensures TrimLeft(pre + s, cutset) == TrimLeft(s, cutset)
  {
    if pre != [] {
      assert (pre + s)[0] == pre[0] && (pre + s)[1..] == pre[1..] + s;
      assert TrimLeft(pre + s, cutset) == TrimLeft(pre[1..] + s, cutset);
      TrimLeftPadding(pre[1..], s, cutset);
    } else {
      assert pre + s == s;
    }
  }

  lemma {:induction false} TrimLeftAllCut(s: string, post: string, cutset: string)
    requires TrimLeft(s, cutset) == []
    requires forall k :: 0 <= k < |post| ==> post[k] in cutset
    ensures TrimLeft(s + post, cutset) == []
  {
    TrimLeftPadding(s, post, cutset);
    TrimLeftPadding(post, [], cutset);
    assert post + [] == post;
  }

  lemma {:induction false} TrimLeftAppend(s: string, post: string, cutset: string)
    requires TrimLeft(s, cutset) != []
    ensures TrimLeft(s + post, cutset) == TrimLeft(s, cutset) + post
  {
    if s[0] in cutset {
      assert (s + post)[1..] == s[1..] + post;
      TrimLeftAppend(s[1..], post, cutset);
    }
  }

  lemma {:induction false} TrimRightPadding(s: string, post: string, cutset: string)
    requires forall k :: 0 <= k < |post| ==> post[k] in cutset
    ensures TrimRight(s + post, cutset) == TrimRight(s, cutset)
  {
    if post != [] {
      var p := post[..|post| - 1];
      assert (s + post)[..|s + post| - 1] == s + p;
      TrimRightPadding(s, p, cutset);
    } else {
      assert s + post == s;
    }
  }

  /** ASCII lower-casing of one character. */
  function LowerChar(c: char): char {
    if 'A' <= c <= 'Z' then (c as int + 32) as char else c
  }

  /** `strings.ToLower` on ASCII text: every letter lowered, everything else kept, in place. */
  function ToLower(s: string): (r: string)
    ensures |r| == |s|
    ensures forall k :: 0 <= k < |s| ==> r[k] == LowerChar(s[k])
  {
    if s == [] then [] else [LowerChar(s[0])] + ToLower(s[1..])
  }

  /** Lower-casing twice is lower-casing once. */
  lemma ToLowerIdempotent(s: string)
    ensures ToLower(ToLower(s)) == ToLower(s)
  {
    var t := ToLower(s);
    assert forall k :: 0 <= k < |t| ==> LowerChar(t[k]) == t[k];
  }

  /** A cutset that lower-casing neither enters nor leaves. */
  ghost predicate CaseBlind(cutset: string) {
    forall c :: LowerChar(c) in cutset <==> c in cutset
  }

  /** Lower-casing commutes with trimming by a case-blind cutset. */
  lemma {:induction false} TrimLeftToLower(s: string, cutset: string)
    requires CaseBlind(cutset)
    ensures TrimLeft(ToLower(s), cutset) == ToLower(TrimLeft(s, cutset))
  {
    if s != [] {
      assert ToLower(s)[0] == LowerChar(s[0]);
      assert ToLower(s)[1..] == ToLower(s[1..]);
      TrimLeftToLower(s[1..], cutset);
    }
  }

  lemma {:induction false} TrimRightToLower(s: string, cutset: string)
    requires CaseBlind(cutset)
    ensures TrimRight(ToLower(s), cutset) == ToLower(TrimRight(s, cutset))
  {
    if s != [] {
      var n := |s| - 1;
      assert ToLower(s)[n] == LowerChar(s[n]);
      ToLowerPrefix(s, n);
      TrimRightToLower(s[..n], cutset);
    }
  }

  lemma ToLowerPrefix(s: string, n: nat)
    requires n <= |s|
    ensures ToLower(s)[..n] == ToLower(s[..n])
  {
  }

  lemma TrimToLower(s: string, cutset: string)
    requires CaseBlind(cutset)
    ensures Trim(ToLower(s), cutset) == ToLower(Trim(s, cutset))
  {
    TrimLeftToLower(s, cutset);
    TrimRightToLower(TrimLeft(s, cutset), cutset);
  }

  lemma LowerSingle(c: char)
    ensures ToLower([c]) == [LowerChar(c)]
  {
  }

  /** Total length of a sequence of strings. */
  function TotalLength(elems: seq<string>): nat {
    if elems == [] then 0 else |elems[0]| + TotalLength(elems[1..])
  }

  /** `strings.Join(elems, sep)`: the elements in order, with `sep` between neighbours. */
  function Join(elems: seq<string>, sep: string): (r: string)
    ensures elems == [] ==> r == []
    ensures elems != [] ==> elems[0] <= r && |r| == TotalLength(elems) + (|elems| - 1) * |sep|
  {
    if elems == [] then []
    else if |elems| == 1 then elems[0]
    else elems[0] + sep + Join(elems[1..], sep)
  }

  /** Joining two non-empty runs of elements is joining each and putting `sep` between them. */
  lemma {:induction false} JoinAppend(a: seq<string>, b: seq<string>, sep: string)
    requires a != [] && b != []
    ensures Join(a + b, sep) == Join(a, sep) + sep + Join(b, sep)
  {
    var ab := a + b;
    assert ab[0] == a[0] && ab[1..] == a[1..] + b;
    assert Join(ab, sep) == a[0] + sep + Join(a[1..] + b, sep);
    if |a| > 1 {
      JoinAppend(a[1..], b, sep);
      var x, y := Join(a[1..], sep), Join(b, sep);
      assert Join(a, sep) == a[0] + sep + x;
      assert a[0] + sep + (x + sep + y) == (a[0] + sep + x) + sep + y;
    } else {
      assert a[1..] + b == b;
    }
  }

  /** Every element appears in order, each one followed by `sep` when another follows it. */
  lemma {:induction false} JoinElements(elems: seq<string>, sep: string)
    requires |elems| > 1
    ensures Join(elems, sep) == Join(elems[..|elems| - 1], sep) + sep + elems[|elems| - 1]
  {
    var n := |elems| - 1;
    assert elems == elems[..n] + [elems[n]];
    JoinAppend(elems[..n], [elems[n]], sep);
  }
}
