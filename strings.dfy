/** The handful of Rust `str` operations the core relies on, over `seq<char>`. */
module Strings {

  predicate StartsWith(s: string, p: string) {
    |p| <= |s| && s[..|p|] == p
  }

  /** Rust's `char::is_whitespace`: the Unicode White_Space property. */
  predicate IsWhitespace(c: char) {
    || ('\t' <= c <= '\r')
    || c == ' '
    || c == '\U{0085}'
    || c == '\U{00A0}'
    || c == '\U{1680}'
    || ('\U{2000}' <= c <= '\U{200A}')
    || c == '\U{2028}'
    || c == '\U{2029}'
    || c == '\U{202F}'
    || c == '\U{205F}'
    || c == '\U{3000}'
  }

  /** Neither end of `s` is whitespace. */
  predicate Trimmed(s: string) {
    s == [] || (!IsWhitespace(s[0]) && !IsWhitespace(s[|s| - 1]))
  }

  /** `str::trim_start`: drops the longest all-whitespace prefix. */
  function TrimStart(s: string): (r: string)
    ensures |r| <= |s| && r == s[|s| - |r|..]
    ensures forall k :: 0 <= k < |s| - |r| ==> IsWhitespace(s[k])
    ensures r == [] || !IsWhitespace(r[0])
    decreases |s|
  {
    if s != [] && IsWhitespace(s[0]) then TrimStart(s[1..]) else s
  }

  /** `str::trim_end`: drops the longest all-whitespace suffix. */
  function TrimEnd(s: string): (r: string)
    ensures |r| <= |s| && r == s[..|r|]
    ensures forall k :: |r| <= k < |s| ==> IsWhitespace(s[k])
    ensures r == [] || !IsWhitespace(r[|r| - 1])
    decreases |s|
  {
    if s != [] && IsWhitespace(s[|s| - 1]) then TrimEnd(s[..|s| - 1]) else s
  }

  /** `str::trim`. */
  function Trim(s: string): (r: string)
    ensures |r| <= |s| && Trimmed(r)
    ensures Trimmed(s) ==> r == s
    ensures forall x :: x in r ==> x in s
  {
    TrimEnd(TrimStart(s))
  }

  /** Trailing whitespace added to a trimmed string is trimmed away again. */
  lemma TrimDropsPadding(s: string, pad: string)
    requires Trimmed(s)
    requires forall k :: 0 <= k < |pad| ==> IsWhitespace(pad[k])
    ensures Trim(s + pad) == s
  {
    var t := s + pad;
    assert forall k :: |s| <= k < |t| ==> t[k] == pad[k - |s|];
    if s == [] {
      assert TrimStart(t) == [];
    } else {
      assert TrimStart(t) == t;
      assert t[|s| - 1] == s[|s| - 1];
      var r := TrimEnd(t);
      assert r == [] || r[|r| - 1] == t[|r| - 1];
      assert r == t[..|s|] == s;
    }
  }

  /** The parts of a text made of `a`, the character `c` and `b`. */
  lemma AroundSeparator(a: string, c: char, b: string)
    ensures (a + [c] + b)[..|a|] == a && (a + [c] + b)[|a|] == c
    ensures (a + [c] + b)[|a| + 1..] == b
  {
  }

  /** Every character of `s` is whitespace. */
  predicate AllWhitespace(s: string) {
    forall k :: 0 <= k < |s| ==> IsWhitespace(s[k])
  }

  /** `trim_start` drops exactly a whitespace prefix that ends before a
      non-whitespace character or at the end. */
  lemma {:induction false} TrimStartAt(s: string, i: nat)
    requires i <= |s| && forall k :: 0 <= k < i ==> IsWhitespace(s[k])
    requires i == |s| || !IsWhitespace(s[i])
    ensures TrimStart(s) == s[i..]
    decreases i
  {
    if i > 0 {
      var t := s[1..];
      assert forall k :: 0 <= k < i - 1 ==> t[k] == s[k + 1];
      assert i - 1 == |t| || t[i - 1] == s[i];
      TrimStartAt(t, i - 1);
      assert t[i - 1..] == s[i..];
    }
  }

  /** `trim_end` drops exactly a whitespace suffix that starts after a
      non-whitespace character or at the start. */
  lemma {:induction false} TrimEndAt(s: string, j: nat)
    requires j <= |s| && forall k :: j <= k < |s| ==> IsWhitespace(s[k])
    requires j == 0 || !IsWhitespace(s[j - 1])
    ensures TrimEnd(s) == s[..j]
    decreases |s| - j
  {
    if j < |s| {
      var t := s[..|s| - 1];
      assert forall k :: j <= k < |t| ==> t[k] == s[k];
      assert j == 0 || t[j - 1] == s[j - 1];
      TrimEndAt(t, j);
      assert t[..j] == s[..j];
    } else {
      assert s[..j] == s;
    }
  }

  /** A trimmed non-empty text between two runs of whitespace is what `trim` gives. */
  lemma TrimPadded(pad: string, s: string, trail: string)
    requires AllWhitespace(pad) && AllWhitespace(trail)
    requires s != [] && Trimmed(s)
    ensures Trim(pad + s + trail) == s
  {
    assert TrimStart(pad + s + trail) == s + trail by {
      AppendAssoc(pad, s, trail);
      TrimStartPad(pad, s + trail);
      assert (s + trail)[0] == s[0];
      TrimStartAt(s + trail, 0);
    }
    assert TrimEnd(s + trail) == s by {
      TrimEndJoin(s, trail);
      TrimEndAt(s, |s|);
    }
  }

  /** `trim_end` of a concatenation: an all-whitespace end is dropped with the
      end of what comes before it, otherwise only the end of the second part is. */
  lemma {:induction false} TrimEndJoin(a: string, b: string)
    ensures TrimEnd(a + b) == if AllWhitespace(b) then TrimEnd(a) else a + TrimEnd(b)
    decreases |b|
  {
    if b == [] {
      assert a + b == a;
    } else {
      var w := a + b;
      var c := b[..|b| - 1];
      assert w[|w| - 1] == b[|b| - 1];
      if IsWhitespace(b[|b| - 1]) {
        assert w[..|w| - 1] == a + c;
        assert AllWhitespace(b) <==> AllWhitespace(c) by {
          assert forall k :: 0 <= k < |c| ==> c[k] == b[k];
        }
        assert TrimEnd(w) == TrimEnd(a + c) && TrimEnd(b) == TrimEnd(c);
        TrimEndJoin(a, c);
      } else {
        assert !AllWhitespace(b) && TrimEnd(w) == w && TrimEnd(b) == b;
      }
    }
  }

  /** After a part that does not end in whitespace, `trim_end` only trims
      what follows. */
  lemma TrimEndAfter(a: string, b: string)
    requires a == [] || !IsWhitespace(a[|a| - 1])
    ensures TrimEnd(a + b) == a + TrimEnd(b)
  {
    TrimEndJoin(a, b);
    if AllWhitespace(b) {
      TrimEndAt(a, |a|);
      TrimEndAt(b, 0);
      assert a + [] == a;
    }
  }

  /** `trim_start` of a concatenation whose first part is not all whitespace
      only trims that first part. */
  lemma {:induction false} TrimStartJoin(a: string, b: string)
    requires !AllWhitespace(a)
    ensures TrimStart(a + b) == TrimStart(a) + b
    decreases |a|
  {
    var w := a + b;
    assert w[0] == a[0];
    if IsWhitespace(a[0]) {
      assert !AllWhitespace(a[1..]) by {
        var k :| 0 <= k < |a| && !IsWhitespace(a[k]);
        assert a[1..][k - 1] == a[k];
      }
      assert w[1..] == a[1..] + b;
      TrimStartJoin(a[1..], b);
    }
  }

  /** Leading whitespace makes no difference to `trim_start`. */
  lemma {:induction false} TrimStartPad(pad: string, s: string)
    requires AllWhitespace(pad)
    ensures TrimStart(pad + s) == TrimStart(s)
    decreases |pad|
  {
    if pad != [] {
      var w := pad + s;
      assert w[0] == pad[0] && w[1..] == pad[1..] + s;
      assert AllWhitespace(pad[1..]) by {
        assert forall k :: 0 <= k < |pad| - 1 ==> pad[1..][k] == pad[k + 1];
      }
      TrimStartPad(pad[1..], s);
    } else {
      assert pad + s == s;
    }
  }

  /** Trimming after dropping the whitespace end trims to the same text. */
  lemma TrimEndTrim(s: string)
    ensures Trim(TrimEnd(s)) == Trim(s)
  {
    var t := TrimEnd(s);
    if AllWhitespace(s) {
      TrimStartAt(s, |s|);
      TrimEndAt(s, 0);
      assert t == [] && TrimStart(s) == [];
    } else {
      var z := s[|t|..];
      assert s == t + z && AllWhitespace(z);
      assert t != [] && !IsWhitespace(t[|t| - 1]);
      TrimStartJoin(t, z);
      TrimEndJoin(TrimStart(t), z);
      assert TrimEnd(TrimStart(t) + z) == Trim(t);
    }
  }

  /** Index of the first whitespace character of `s`, or `|s|` when there is none. */
  function WhitespaceIndex(s: string): (i: nat)
    ensures i <= |s|
    ensures forall k :: 0 <= k < i ==> !IsWhitespace(s[k])
    ensures i < |s| ==> IsWhitespace(s[i])
  {
    if s == [] || IsWhitespace(s[0]) then 0 else 1 + WhitespaceIndex(s[1..])
  }

  /** The text of `s` before its first `c`: the first item of `s.split(c)`. */
  function Before(s: string, c: char): (r: string)
    ensures StartsWith(s, r) && c !in r
    ensures |r| < |s| ==> s[|r|] == c
  {
    if s == [] || s[0] == c then [] else [s[0]] + Before(s[1..], c)
  }

  /** `Before` stops at the first separator, whatever follows it. */
  lemma BeforeSeparator(a: string, c: char, b: string)
    requires c !in a
    ensures Before(a + [c] + b, c) == a
  {
    var s := a + [c] + b;
    var r := Before(s, c);
    assert forall k :: 0 <= k < |a| ==> s[k] == a[k];
    assert s[|a|] == c;
    assert r == s[..|a|] == a;
  }

  /** `items.join(sep)` of Rust's slices of strings. */
  function Join(items: seq<string>, sep: string): string {
    if items == [] then []
    else if |items| == 1 then items[0]
    else items[0] + sep + Join(items[1..], sep)
  }

  /** Joining one more item appends the separator and that item. */
  lemma {:induction false} JoinSnoc(items: seq<string>, sep: string, x: string)
    requires items != []
    ensures Join(items + [x], sep) == Join(items, sep) + sep + x
  {
    var all := items + [x];
    assert all[0] == items[0] && all[1..] == items[1..] + [x];
    if |items| > 1 {
      JoinSnoc(items[1..], sep, x);
      AppendAssoc(items[0] + sep, Join(items[1..], sep) + sep, x);
      AppendAssoc(items[0] + sep, Join(items[1..], sep), sep);
    }
  }

  /** Concatenation is associative. */
  lemma AppendAssoc<T>(a: seq<T>, b: seq<T>, c: seq<T>)
    ensures a + (b + c) == (a + b) + c
  {
  }

  /** `s.split(c)`: the pieces between the separators, in order. */
  function Split(s: string, c: char): (parts: seq<string>)
    ensures |parts| >= 1
    ensures forall k :: 0 <= k < |parts| ==> c !in parts[k]
    decreases |s|
  {
    var head := Before(s, c);
    if |head| == |s| then [s] else [head] + Split(s[|head| + 1..], c)
  }

  /** Splitting a join at its one-character separator gives back the items. */
  lemma {:induction false} SplitJoin(items: seq<string>, c: char)
    requires items != []
    requires forall k :: 0 <= k < |items| ==> c !in items[k]
    ensures Split(Join(items, [c]), c) == items
  {
    if |items| == 1 {
      assert Join(items, [c]) == items[0];
    } else {
      var rest := Join(items[1..], [c]);
      var s := items[0] + [c] + rest;
      assert Join(items, [c]) == s;
      BeforeSeparator(items[0], c, rest);
      assert s[|items[0]| + 1..] == rest;
      SplitJoin(items[1..], c);
    }
  }

  /** `pat` occurs somewhere in `s`. */
  predicate Occurs(pat: string, s: string) {
    exists i :: 0 <= i <= |s| && OccursAt(pat, s, i)
  }

  /** `pat` occurs in `s` starting at index `i`. */
  predicate OccursAt(pat: string, s: string, i: nat) {
    i + |pat| <= |s| && s[i..i + |pat|] == pat
  }

  /** `s.replace(pat, "")`: removes the non-overlapping occurrences of `pat`
      found scanning from left to right. */
  function RemoveAll(s: string, pat: string): (r: string)
    requires pat != []
    ensures |r| <= |s|
    decreases |s|
  {
    if |s| < |pat| then s
    else if s[..|pat|] == pat then RemoveAll(s[|pat|..], pat)
    else [s[0]] + RemoveAll(s[1..], pat)
  }

  /** A string in which `pat` does not occur is left as it is. */
  lemma {:induction false} RemoveAllAbsent(s: string, pat: string)
    requires pat != [] && !Occurs(pat, s)
    ensures RemoveAll(s, pat) == s
    decreases |s|
  {
    if |s| >= |pat| {
      assert s[0..0 + |pat|] == s[..|pat|];
      assert !OccursAt(pat, s, 0);
      OccursInTail(pat, s);
      RemoveAllAbsent(s[1..], pat);
    }
  }

  /** An occurrence in the tail of `w` is an occurrence in `w`. */
  lemma OccursInTail(pat: string, w: string)
    requires w != []
    ensures Occurs(pat, w[1..]) ==> Occurs(pat, w)
  {
    if Occurs(pat, w[1..]) {
      var i :| 0 <= i <= |w[1..]| && OccursAt(pat, w[1..], i);
      assert w[1..][i..i + |pat|] == w[i + 1..i + 1 + |pat|];
      assert OccursAt(pat, w, i + 1);
    }
  }

  /** A prefix without the pattern's first character is kept as it is, and
      the scan goes on after it. */
  lemma {:induction false} RemoveAllKeepsPlainPrefix(a: string, rest: string, pat: string)
    requires pat != [] && pat[0] !in a
    ensures RemoveAll(a + rest, pat) == a + RemoveAll(rest, pat)
    decreases |a|
  {
    if a == [] {
      assert a + rest == rest;
    } else {
      var s := a + rest;
      assert s[0] == a[0] && s[1..] == a[1..] + rest;
      assert !StartsWith(s, pat) by {
        if |pat| <= |s| {
          assert s[..|pat|][0] == s[0];
        }
      }
      RemoveAllKeep(s, pat);
      RemoveAllKeepsPlainPrefix(a[1..], rest, pat);
      assert [a[0]] + (a[1..] + RemoveAll(rest, pat)) == a + RemoveAll(rest, pat);
    }
  }

  /** A text starting with the pattern loses it and the scan resumes after it. */
  lemma RemoveAllCut(pat: string, b: string)
    requires pat != []
    ensures RemoveAll(pat + b, pat) == RemoveAll(b, pat)
  {
    var s := pat + b;
    assert s[..|pat|] == pat && s[|pat|..] == b;
  }

  /** A text that does not start with the pattern keeps its first character. */
  lemma RemoveAllKeep(s: string, pat: string)
    requires pat != [] && s != [] && !StartsWith(s, pat)
    ensures RemoveAll(s, pat) == [s[0]] + RemoveAll(s[1..], pat)
  {
  }
}
