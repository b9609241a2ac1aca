/**
 * The JavaScript string primitives the importer relies on: `trim`,
 * `toLowerCase`, `includes`, `split` with a one-character separator and
 * `replace` with a one-character pattern. Strings are sequences of Unicode
 * scalar values.
 */
module JsText {

  /** The WhiteSpace and LineTerminator code points of ECMAScript, which `trim` strips. */
  predicate IsJsSpace(c: char) {
    || c == '\t' || c == '\n' || c == '\U{B}' || c == '\U{C}' || c == '\r' || c == ' '
    || c == '\U{A0}' || c == '\U{1680}' || ('\U{2000}' <= c <= '\U{200A}')
    || c == '\U{2028}' || c == '\U{2029}' || c == '\U{202F}' || c == '\U{205F}'
    || c == '\U{3000}' || c == '\U{FEFF}'
  }

  predicate AllSpace(s: string) {
    forall k :: 0 <= k < |s| ==> IsJsSpace(s[k])
  }

  /** Neither end of `s` is white space: what `trim` leaves behind. */
  predicate IsTrimmed(s: string) {
    s == [] || (!IsJsSpace(s[0]) && !IsJsSpace(s[|s| - 1]))
  }

  /** Drops the leading white space. */
  function TrimStart(s: string): string
    decreases |s|
  {
    if |s| > 0 && IsJsSpace(s[0]) then TrimStart(s[1..]) else s
  }

  /** Drops the trailing white space. */
  function TrimEnd(s: string): string
    decreases |s|
  {
    if |s| > 0 && IsJsSpace(s[|s| - 1]) then TrimEnd(s[..|s| - 1]) else s
  }

  /** `TrimStart(s)` is what is left of `s` after a run of white space, and does not start with white space. */
  lemma {:induction false} TrimStartSpec(s: string)
    ensures var r := TrimStart(s);
      && |r| <= |s| && r == s[|s| - |r|..]
      && AllSpace(s[..|s| - |r|])
      && (r == [] || !IsJsSpace(r[0]))
    decreases |s|
  {
    if |s| > 0 && IsJsSpace(s[0]) {
      TrimStartSpec(s[1..]);
      var r := TrimStart(s);
      var n := |s| - |r|;
      assert s[1..][..n - 1] == s[1..n];
      forall k | 0 <= k < n ensures IsJsSpace(s[..n][k]) {
        if k > 0 {
          assert s[..n][k] == s[1..][..n - 1][k - 1];
        }
      }
    } else {
      assert s[..0] == [];
    }
  }

  /** `TrimEnd(s)` is `s` before a run of white space, and does not end with white space. */
  lemma {:induction false} TrimEndSpec(s: string)
    ensures var r := TrimEnd(s);
      && |r| <= |s| && r == s[..|r|]
      && AllSpace(s[|r|..])
      && (r == [] || !IsJsSpace(r[|r| - 1]))
    decreases |s|
  {
    if |s| > 0 && IsJsSpace(s[|s| - 1]) {
      var s' := s[..|s| - 1];
      TrimEndSpec(s');
      var r := TrimEnd(s);
      forall k | |r| <= k < |s| ensures IsJsSpace(s[k]) {
        if k < |s| - 1 {
          assert s'[|r|..][k - |r|] == s[k];
        }
      }
      assert forall k :: 0 <= k < |s[|r|..]| ==> s[|r|..][k] == s[|r| + k];
    } else {
      assert s[|s|..] == [];
    }
  }

  /** `String.prototype.trim`. */
  function Trim(s: string): string {
    TrimEnd(TrimStart(s))
  }

  /** `trim` leaves a trimmed string, and the empty string exactly when `s` is all white space. */
  lemma TrimSpec(s: string)
    ensures IsTrimmed(Trim(s))
    ensures Trim(s) == [] <==> AllSpace(s)
  {
    var t := TrimStart(s);
    var r := TrimEnd(t);
    TrimStartSpec(s);
    TrimEndSpec(t);
    var a := |s| - |t|;
    if r == [] {
      assert t == [];
      forall k | 0 <= k < |s| ensures IsJsSpace(s[k]) {
        assert s[..a][k] == s[k];
      }
    } else {
      assert r[0] == t[0] == s[a];
    }
  }

  /** `trim` is the identity exactly on trimmed strings, so trimming twice changes nothing. */
  lemma TrimIdentity(s: string)
    ensures Trim(s) == s <==> IsTrimmed(s)
    ensures Trim(Trim(s)) == Trim(s)
  {
    TrimSpec(s);
    if IsTrimmed(s) && s != [] {
      assert TrimStart(s) == s;
    }
    TrimSpec(Trim(s));
    var t := Trim(s);
    if t != [] {
      assert TrimStart(t) == t;
    }
  }

  /** `trim` only removes characters: whatever is in the result was in `s`. */
  lemma TrimKeeps(s: string, c: char)
    requires c in Trim(s)
    ensures c in s
  {
    var t := TrimStart(s);
    var r := TrimEnd(t);
    TrimStartSpec(s);
    TrimEndSpec(t);
    var k :| 0 <= k < |r| && r[k] == c;
    assert t[..|r|][k] == t[k];
    assert s[|s| - |t|..][k] == s[|s| - |t| + k];
  }

  // ---- toLowerCase ----

  /**
   * The lower-case mapping of one code point: ASCII and Latin-1 capitals,
   * U+0130 (which lowers to "i" and a combining dot) and the Kelvin sign
   * U+212A (which lowers to "k"). Every other code point is kept; none of
   * them lowers to an ASCII letter.
   */
  function LowerChar(c: char): string {
    if 'A' <= c <= 'Z' || ('\U{C0}' <= c <= '\U{DE}' && c != '\U{D7}') then [(c as int + 32) as char]
    else if c == '\U{130}' then ['i', '\U{307}']
    else if c == '\U{212A}' then ['k']
    else [c]
  }

  /** `String.prototype.toLowerCase`, code point by code point. */
  function Lower(s: string): string
    decreases |s|
  {
    if s == [] then [] else LowerChar(s[0]) + Lower(s[1..])
  }

  lemma {:induction false} LowerAppend(a: string, b: string)
    ensures Lower(a + b) == Lower(a) + Lower(b)
    decreases |a|
  {
    if a != [] {
      assert (a + b)[0] == a[0];
      assert (a + b)[1..] == a[1..] + b;
      LowerAppend(a[1..], b);
      calc {
        Lower(a + b);
        LowerChar(a[0]) + Lower(a[1..] + b);
        LowerChar(a[0]) + (Lower(a[1..]) + Lower(b));
        (LowerChar(a[0]) + Lower(a[1..])) + Lower(b);
      }
    } else {
      assert a + b == b;
    }
  }

  /** Lowering never shortens a string, so only the empty string lowers to "". */
  lemma {:induction false} LowerLength(s: string)
    ensures |Lower(s)| >= |s|
    ensures Lower(s) == [] <==> s == []
    decreases |s|
  {
    if s != [] {
      LowerLength(s[1..]);
    }
  }

  /** Lowering an already lower-cased string changes nothing. */
  lemma {:induction false} LowerIdempotent(s: string)
    ensures Lower(Lower(s)) == Lower(s)
    decreases |s|
  {
    if s != [] {
      var h := LowerChar(s[0]);
      assert Lower(s) == h + Lower(s[1..]);
      LowerCharFixed(s[0]);
      LowerAppend(h, Lower(s[1..]));
      LowerIdempotent(s[1..]);
    }
  }

  /** What a character lowers to is already lower case. */
  lemma LowerCharFixed(c: char)
    ensures Lower(LowerChar(c)) == LowerChar(c)
  {
    var h := LowerChar(c);
    if |h| == 2 {
      assert h[1..] == ['\U{307}'];
      assert Lower(h[1..]) == ['\U{307}'] + Lower([]);
    }
    assert Lower(h) == LowerChar(h[0]) + Lower(h[1..]);
  }

  // ---- includes ----

  /** The characters `k[j..]` stand in `s` from index `i + j` on. */
  predicate StartsAt(s: string, k: string, i: nat, j: nat)
    requires i + |k| <= |s| && j <= |k|
    decreases |k| - j
  {
    j == |k| || (s[i + j] == k[j] && StartsAt(s, k, i, j + 1))
  }

  /** `k` starts in `s` at some index `i` or later. */
  predicate IncludesFrom(s: string, k: string, i: nat)
    decreases |s| - i
  {
    i + |k| <= |s| && (StartsAt(s, k, i, 0) || IncludesFrom(s, k, i + 1))
  }

  /** `s.includes(k)`. */
  predicate Includes(s: string, k: string) {
    IncludesFrom(s, k, 0)
  }

  /** `k` occurs in `s` starting at index `i`. */
  ghost predicate OccursAt(s: string, k: string, i: int) {
    0 <= i && i + |k| <= |s| && s[i..i + |k|] == k
  }

  lemma {:induction false} StartsAtIff(s: string, k: string, i: nat, j: nat)
    requires i + |k| <= |s| && j <= |k|
    ensures StartsAt(s, k, i, j) <==> s[i + j..i + |k|] == k[j..]
    decreases |k| - j
  {
    if j < |k| {
      StartsAtIff(s, k, i, j + 1);
      assert s[i + j..i + |k|] == [s[i + j]] + s[i + j + 1..i + |k|];
      assert k[j..] == [k[j]] + k[j + 1..];
    }
  }

  lemma {:induction false} IncludesFromIff(s: string, k: string, i: nat)
    ensures IncludesFrom(s, k, i) <==> exists p :: i <= p && OccursAt(s, k, p)
    decreases |s| - i
  {
    if i + |k| <= |s| {
      StartsAtIff(s, k, i, 0);
      IncludesFromIff(s, k, i + 1);
      if p :| i <= p && OccursAt(s, k, p) {
        if p > i {
          assert i + 1 <= p && OccursAt(s, k, p);
        }
      }
      if StartsAt(s, k, i, 0) {
        assert OccursAt(s, k, i);
      }
    }
  }

  /** `Includes` holds exactly when `k` occurs somewhere in `s`. */
  lemma IncludesIff(s: string, k: string)
    ensures Includes(s, k) <==> exists i :: OccursAt(s, k, i)
  {
    IncludesFromIff(s, k, 0);
  }

  /** Every character of an included `k` occurs in `s`. */
  lemma IncludesChars(s: string, k: string)
    ensures Includes(s, k) ==> forall c :: c in k ==> c in s
  {
    IncludesIff(s, k);
    if Includes(s, k) {
      var i :| OccursAt(s, k, i);
      forall c | c in k ensures c in s {
        var j :| 0 <= j < |k| && k[j] == c;
        assert s[i..i + |k|][j] == s[i + j];
      }
    }
  }

  // ---- split and replace ----

  /** Index of the first `c` in `s`, or `|s|` when there is none. */
  function IndexOf(s: string, c: char): (k: nat)
    ensures k <= |s|
    ensures k < |s| ==> s[k] == c
    ensures forall m :: 0 <= m < k ==> s[m] != c
    decreases |s|
  {
    if s == [] then 0 else if s[0] == c then 0 else 1 + IndexOf(s[1..], c)
  }

  /** `s.split(sep)` for a one-character separator: never an empty list. */
  function Split(s: string, sep: char): (parts: seq<string>)
    decreases |s|
  {
    var k := IndexOf(s, sep);
    if k == |s| then [s] else [s[..k]] + Split(s[k + 1..], sep)
  }

  /** When `a` holds no `c`, the first `c` of `a + b` is the first `c` of `b`. */
  lemma {:induction false} IndexOfConcat(a: string, b: string, c: char)
    requires c !in a
    ensures IndexOf(a + b, c) == |a| + IndexOf(b, c)
    decreases |a|
  {
    if a == [] {
      assert a + b == b;
    } else {
      assert (a + b)[1..] == a[1..] + b;
      IndexOfConcat(a[1..], b, c);
    }
  }

  /** `parts.join(sep)`. */
  function Join(parts: seq<string>, sep: char): string
    decreases |parts|
  {
    if parts == [] then []
    else if |parts| == 1 then parts[0]
    else parts[0] + [sep] + Join(parts[1..], sep)
  }

  /** Splitting and joining again gives back the text; no piece contains the separator. */
  lemma {:induction false} SplitJoin(s: string, sep: char)
    ensures |Split(s, sep)| >= 1
    ensures forall p :: p in Split(s, sep) ==> sep !in p
    ensures Join(Split(s, sep), sep) == s
    decreases |s|
  {
    var k := IndexOf(s, sep);
    if k < |s| {
      SplitJoin(s[k + 1..], sep);
      var rest := Split(s[k + 1..], sep);
      assert Split(s, sep)[1..] == rest;
      assert s == s[..k] + [sep] + s[k + 1..];
    } else {
      assert s[..k] == s;
    }
  }

  /** Splitting the text `a + sep + b` splits `a` and `b` separately. */
  lemma {:induction false} SplitAppend(a: string, sep: char, b: string)
    ensures Split(a + [sep] + b, sep) == Split(a, sep) + Split(b, sep)
    decreases |a|
  {
    var k := IndexOf(a, sep);
    if k == |a| {
      SplitAtJoint(a + [sep] + b, a, sep, b);
    } else {
      var head, rest := a[..k], a[k + 1..];
      SplitBeforeJoint(a + [sep] + b, a, sep, b, k);
      SplitAppend(rest, sep, b);
      AppendAssoc([head], Split(rest, sep), Split(b, sep));
    }
  }

  /** Concatenation is associative. */
  lemma AppendAssoc<T>(a: seq<T>, b: seq<T>, c: seq<T>)
    ensures (a + b) + c == a + (b + c)
  {
  }

  /** When `a` holds no separator, `a + sep + b` is cut first at the joint. */
  lemma SplitAtJoint(s: string, a: string, sep: char, b: string)
    requires s == a + [sep] + b && IndexOf(a, sep) == |a|
    ensures Split(s, sep) == Split(a, sep) + Split(b, sep)
  {
    assert a <= s && s[|a|] == sep;
    IndexOfPrefix(s, a, sep);
    assert s[..|a|] == a && s[|a| + 1..] == b;
  }

  /** When `a` holds a separator at `k`, `a + sep + b` is cut there too. */
  lemma SplitBeforeJoint(s: string, a: string, sep: char, b: string, k: nat)
    requires s == a + [sep] + b && k == IndexOf(a, sep) && k < |a|
    ensures Split(s, sep) == [a[..k]] + Split(a[k + 1..] + [sep] + b, sep)
    ensures Split(a, sep) == [a[..k]] + Split(a[k + 1..], sep)
  {
    assert IndexOf(s, sep) == k by {
      assert a <= s;
      IndexOfPrefix(s, a, sep);
    }
    SplitCut(s, sep, k);
    SplitCut(a, sep, k);
    JointSlices(a, sep, b, k);
  }

  lemma JointSlices(a: string, sep: char, b: string, k: nat)
    requires k < |a|
    ensures (a + [sep] + b)[..k] == a[..k]
    ensures (a + [sep] + b)[k + 1..] == a[k + 1..] + [sep] + b
  {
    assert (a + [sep] + b)[k + 1..] == a[k + 1..] + [sep] + b;
  }

  /** `Split` cuts at the first separator. */
  lemma SplitCut(s: string, sep: char, k: nat)
    requires IndexOf(s, sep) == k && k < |s|
    ensures Split(s, sep) == [s[..k]] + Split(s[k + 1..], sep)
  {
  }

  /** The first `c` of `s` lies where it lies in `a` if `a` is a prefix of `s` holding one, else at or after `|a|`. */
  lemma {:induction false} IndexOfPrefix(s: string, a: string, c: char)
    requires a <= s
    ensures IndexOf(a, c) < |a| ==> IndexOf(s, c) == IndexOf(a, c)
    ensures IndexOf(a, c) == |a| ==> IndexOf(s, c) >= |a|
    ensures IndexOf(a, c) == |a| && |a| < |s| && s[|a|] == c ==> IndexOf(s, c) == |a|
  {
  }

  /** `s.replace(c, rep)` with a string pattern: only the first `c` is replaced. */
  function ReplaceFirst(s: string, c: char, rep: string): string {
    var k := IndexOf(s, c);
    if k == |s| then s else s[..k] + rep + s[k + 1..]
  }

  /** `s.replace(/c/g, '')`: every `c` removed, everything else kept in order. */
  function RemoveAll(s: string, c: char): (r: string)
    ensures c !in r
    ensures |r| <= |s|
    decreases |s|
  {
    if s == [] then [] else (if s[0] == c then [] else [s[0]]) + RemoveAll(s[1..], c)
  }

  lemma {:induction false} RemoveAllAppend(a: string, b: string, c: char)
    ensures RemoveAll(a + b, c) == RemoveAll(a, c) + RemoveAll(b, c)
    decreases |a|
  {
    if a != [] {
      assert (a + b)[0] == a[0];
      assert (a + b)[1..] == a[1..] + b;
      RemoveAllAppend(a[1..], b, c);
      var h := if a[0] == c then [] else [a[0]];
      calc {
        RemoveAll(a + b, c);
        h + RemoveAll(a[1..] + b, c);
        h + (RemoveAll(a[1..], c) + RemoveAll(b, c));
        (h + RemoveAll(a[1..], c)) + RemoveAll(b, c);
      }
    } else {
      assert a + b == b;
    }
  }

  /** Removing a character that does not occur changes nothing. */
  lemma {:induction false} RemoveAllAbsent(s: string, c: char)
    requires c !in s
    ensures RemoveAll(s, c) == s
    decreases |s|
  {
    if s != [] {
      assert c !in s[1..];
      RemoveAllAbsent(s[1..], c);
    }
  }

  /** Removing `c` keeps every other character, and brings in none. */
  lemma {:induction false} RemoveAllKeeps(s: string, c: char, x: char)
    requires x != c
    ensures x in RemoveAll(s, c) <==> x in s
    decreases |s|
  {
    if s != [] {
      RemoveAllKeeps(s[1..], c, x);
      assert s == [s[0]] + s[1..];
    }
  }

  /** A first character other than `c` is kept in front of the replacement. */
  lemma ReplaceFirstAfter(h: char, r: string, c: char, rep: string)
    requires h != c
    ensures ReplaceFirst([h] + r, c, rep) == [h] + ReplaceFirst(r, c, rep)
  {
    var m, k := [h] + r, IndexOf(r, c);
    IndexOfAfter(h, r, c);
    if k < |r| {
      var before, after := r[..k], r[k + 1..];
      assert ReplaceFirst(m, c, rep) == [h] + before + rep + after by {
        AfterHeadSlices(h, r, k);
      }
      assert ReplaceFirst(r, c, rep) == before + rep + after;
      AppendAssoc([h], before, rep);
      AppendAssoc([h], before + rep, after);
    } else {
      assert ReplaceFirst(m, c, rep) == m;
    }
  }

  lemma IndexOfAfter(h: char, r: string, c: char)
    requires h != c
    ensures IndexOf([h] + r, c) == 1 + IndexOf(r, c)
  {
    assert ([h] + r)[1..] == r;
  }

  lemma AfterHeadSlices(h: char, r: string, k: nat)
    requires k < |r|
    ensures ([h] + r)[..k + 1] == [h] + r[..k]
    ensures ([h] + r)[k + 2..] == r[k + 1..]
  {
  }

  /** A character of `s.replace(c, rep)` comes from `s` or from `rep`. */
  lemma ReplaceFirstKeeps(s: string, c: char, rep: string, x: char)
    requires x in ReplaceFirst(s, c, rep)
    ensures x in s || x in rep
  {
    var k := IndexOf(s, c);
    if k < |s| {
      var a, b := s[..k], s[k + 1..];
      assert x in a || x in rep || x in b;
      if x in a {
        var i :| 0 <= i < |a| && a[i] == x;
        assert s[i] == x;
      } else if x in b {
        var i :| 0 <= i < |b| && b[i] == x;
        assert s[k + 1 + i] == x;
      }
    }
  }
}
