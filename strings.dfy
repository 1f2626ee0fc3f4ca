/**
 * The parts of Go's `strings` and `unicode` packages that the service relies on:
 * `unicode.IsSpace`, `strings.TrimSpace`, `strings.Fields` and `strings.ToLower`
 * (the latter for ASCII letters only).
 */
module Strings {

  /** The code points unicode.IsSpace accepts: the Latin-1 spaces and the other White_Space code points. */
  const SpaceCodes: set<int> := {0x09, 0x0A, 0x0B, 0x0C, 0x0D, 0x20, 0x85, 0xA0, 0x1680,
    0x2000, 0x2001, 0x2002, 0x2003, 0x2004, 0x2005, 0x2006, 0x2007, 0x2008, 0x2009, 0x200A,
    0x2028, 0x2029, 0x202F, 0x205F, 0x3000}

  /** unicode.IsSpace */
  predicate IsSpace(c: char) {
    c as int in SpaceCodes
  }

  predicate Blank(s: string) {
    forall i | 0 <= i < |s| :: IsSpace(s[i])
  }

  /** Number of white-space characters that open `s`. */
  function LeadingSpaces(s: string): (n: nat)
    ensures n <= |s|
    ensures n < |s| ==> !IsSpace(s[n])
  {
    if s == [] || !IsSpace(s[0]) then 0 else 1 + LeadingSpaces(s[1..])
  }

  /** Number of white-space characters that close `s`. */
  function TrailingSpaces(s: string): (n: nat)
    ensures n <= |s|
    ensures n < |s| ==> !IsSpace(s[|s| - 1 - n])
  {
    if s == [] || !IsSpace(s[|s| - 1]) then 0 else 1 + TrailingSpaces(s[..|s| - 1])
  }

  /** What LeadingSpaces counts is white space. */
  lemma {:induction false} LeadingAreSpaces(s: string)
    ensures Blank(s[..LeadingSpaces(s)])
    decreases |s|
  {
    if s != [] && IsSpace(s[0]) {
      LeadingAreSpaces(s[1..]);
      assert s[..LeadingSpaces(s)] == [s[0]] + s[1..][..LeadingSpaces(s[1..])];
    }
  }

  /** What TrailingSpaces counts is white space. */
  lemma {:induction false} TrailingAreSpaces(s: string)
    ensures Blank(s[|s| - TrailingSpaces(s)..])
    decreases |s|
  {
    if s != [] && IsSpace(s[|s| - 1]) {
      var init := s[..|s| - 1];
      TrailingAreSpaces(init);
      var n := TrailingSpaces(init);
      assert s[|s| - (n + 1)..] == init[|init| - n..] + [s[|s| - 1]];
    }
  }

  /** `s` without its leading white space. */
  function TrimLeft(s: string): string {
    if s != [] && IsSpace(s[0]) then TrimLeft(s[1..]) else s
  }

  /** `s` without its trailing white space. */
  function TrimRight(s: string): string {
    if s != [] && IsSpace(s[|s| - 1]) then TrimRight(s[..|s| - 1]) else s
  }

  /** strings.TrimSpace: `s` without its leading and trailing white space. */
  function TrimSpace(s: string): string {
    TrimRight(TrimLeft(s))
  }

  lemma {:induction false} TrimLeftStops(s: string)
    ensures var t := TrimLeft(s); t == [] || !IsSpace(t[0])
    decreases |s|
  {
    if s != [] && IsSpace(s[0]) {
      TrimLeftStops(s[1..]);
    }
  }

  lemma {:induction false} TrimRightStops(s: string)
    ensures var t := TrimRight(s);
      && (t == [] || !IsSpace(t[|t| - 1]))
      && (t != [] ==> t[0] == s[0])
    decreases |s|
  {
    if s != [] && IsSpace(s[|s| - 1]) {
      TrimRightStops(s[..|s| - 1]);
    }
  }

  /** TrimLeft drops exactly the leading white space. */
  lemma {:induction false} TrimLeftDrops(s: string)
    ensures TrimLeft(s) == s[LeadingSpaces(s)..]
    decreases |s|
  {
    if s != [] && IsSpace(s[0]) {
      TrimLeftDrops(s[1..]);
      assert s[1..][LeadingSpaces(s[1..])..] == s[LeadingSpaces(s)..];
    }
  }

  /** TrimRight drops exactly the trailing white space. */
  lemma {:induction false} TrimRightDrops(s: string)
    ensures TrimRight(s) == s[..|s| - TrailingSpaces(s)]
    decreases |s|
  {
    if s != [] && IsSpace(s[|s| - 1]) {
      var init := s[..|s| - 1];
      TrimRightDrops(init);
      assert init[..|init| - TrailingSpaces(init)] == s[..|s| - TrailingSpaces(s)];
    }
  }

  /** Cutting off a prefix that ends before a non-white-space character keeps the trailing white space. */
  lemma {:induction false} TrailingOfSuffix(s: string, k: nat)
    requires k < |s| && !IsSpace(s[k])
    ensures TrailingSpaces(s[k..]) == TrailingSpaces(s) < |s| - k
    decreases |s|
  {
    if IsSpace(s[|s| - 1]) {
      var init := s[..|s| - 1];
      TrailingOfSuffix(init, k);
      assert s[k..][..|s[k..]| - 1] == init[k..];
    }
  }

  /**
   * strings.TrimSpace removes the leading and the trailing white space and
   * nothing else: a blank string becomes empty, and any other string keeps
   * the characters between its first and last non-white-space characters,
   * which are not white space.
   */
  lemma {:induction false} TrimSpaceTrims(s: string)
    ensures LeadingSpaces(s) == |s| ==> TrimSpace(s) == []
    ensures LeadingSpaces(s) < |s| ==>
      && LeadingSpaces(s) + TrailingSpaces(s) < |s|
      && TrimSpace(s) == s[LeadingSpaces(s)..|s| - TrailingSpaces(s)]
    ensures var t := TrimSpace(s); t == [] || (!IsSpace(t[0]) && !IsSpace(t[|t| - 1]))
  {
    if LeadingSpaces(s) < |s| {
      TrimSpaceKeepsMiddle(s);
    } else {
      TrimLeftDrops(s);
    }
    TrimSpaceEnds(s);
  }

  /** A string that is not blank keeps what lies between its leading and its trailing white space. */
  lemma {:induction false} TrimSpaceKeepsMiddle(s: string)
    requires LeadingSpaces(s) < |s|
    ensures LeadingSpaces(s) + TrailingSpaces(s) < |s|
    ensures TrimSpace(s) == s[LeadingSpaces(s)..|s| - TrailingSpaces(s)]
  {
    TrailingOfSuffix(s, LeadingSpaces(s));
    TrimSpaceSlice(s);
  }

  lemma {:induction false} TrimSpaceSlice(s: string)
    requires LeadingSpaces(s) + TrailingSpaces(s) < |s|
    ensures TrimSpace(s) == s[LeadingSpaces(s)..|s| - TrailingSpaces(s)]
  {
    var l, t := LeadingSpaces(s), TrailingSpaces(s);
    var left := TrimLeft(s);
    TrimSpaceTrimsLeftFirst(s);
    TrailingAfterLeading(s, left);
    TrimRightDrops(left);
    SliceOfSuffix(s, l, t, left, TrimSpace(s));
  }

  /** TrimSpace trims the left end first. */
  lemma {:induction false} TrimSpaceTrimsLeftFirst(s: string)
    ensures TrimLeft(s) == s[LeadingSpaces(s)..]
    ensures TrimSpace(s) == TrimRight(TrimLeft(s))
  {
    TrimLeftDrops(s);
  }

  /** Dropping the leading white space of a string that is not blank keeps its trailing white space. */
  lemma {:induction false} TrailingAfterLeading(s: string, left: string)
    requires LeadingSpaces(s) < |s| && left == s[LeadingSpaces(s)..]
    ensures TrailingSpaces(left) == TrailingSpaces(s)
  {
    TrailingOfSuffix(s, LeadingSpaces(s));
  }

  /** Cutting `t` elements off the end of the suffix of `s` from `l` is slicing `s` from `l` to |s| - t. */
  lemma SliceOfSuffix<T>(s: seq<T>, l: nat, t: nat, suffix: seq<T>, cut: seq<T>)
    requires l + t <= |s| && suffix == s[l..] && cut == suffix[..|suffix| - t]
    ensures cut == s[l..|s| - t]
  {
  }

  /** What TrimSpace leaves neither starts nor ends with white space. */
  lemma {:induction false} TrimSpaceEnds(s: string)
    ensures var t := TrimSpace(s); t == [] || (!IsSpace(t[0]) && !IsSpace(t[|t| - 1]))
  {
    TrimLeftStops(s);
    TrimRightStops(TrimLeft(s));
  }

  /** Length of the longest prefix of `s` that holds no white space. */
  function WordLength(s: string): (n: nat)
    ensures n <= |s|
    ensures forall i | 0 <= i < n :: !IsSpace(s[i])
    ensures n < |s| ==> IsSpace(s[n])
  {
    if s == [] || IsSpace(s[0]) then 0 else 1 + WordLength(s[1..])
  }

  predicate IsField(w: string) {
    w != [] && forall i | 0 <= i < |w| :: !IsSpace(w[i])
  }

  /** strings.Fields: the maximal runs of non-white-space characters of `s`, in order. */
  function Fields(s: string): seq<string>
    decreases |s|
  {
    var t := s[LeadingSpaces(s)..];
    if t == [] then []
    else
      var n := WordLength(t);
      [t[..n]] + Fields(t[n..])
  }

  /** Every field is non-empty and free of white space. */
  lemma {:induction false} FieldsAreFields(s: string)
    ensures forall k | 0 <= k < |Fields(s)| :: IsField(Fields(s)[k])
    decreases |s|
  {
    var t := s[LeadingSpaces(s)..];
    if t != [] {
      var n := WordLength(t);
      FieldsAreFields(t[n..]);
      var rest := Fields(t[n..]);
      assert Fields(s) == [t[..n]] + rest;
      forall k | 0 <= k < |Fields(s)|
        ensures IsField(Fields(s)[k])
      {
        if k > 0 {
          assert Fields(s)[k] == rest[k - 1];
        }
      }
    }
  }

  /** All characters of `s` that are not white space, in order. */
  function NonSpace(s: string): string {
    if s == [] then []
    else (if IsSpace(s[0]) then [] else [s[0]]) + NonSpace(s[1..])
  }

  function Concat(ws: seq<string>): string {
    if ws == [] then [] else ws[0] + Concat(ws[1..])
  }

  lemma {:induction false} NonSpaceAppend(a: string, b: string)
    ensures NonSpace(a + b) == NonSpace(a) + NonSpace(b)
    decreases |a|
  {
    if a != [] {
      assert (a + b)[1..] == a[1..] + b;
      NonSpaceAppend(a[1..], b);
    } else {
      assert a + b == b;
    }
  }

  lemma {:induction false} NonSpaceOfBlank(s: string)
    requires Blank(s)
    ensures NonSpace(s) == []
    decreases |s|
  {
    if s != [] {
      NonSpaceOfBlank(s[1..]);
    }
  }

  lemma {:induction false} NonSpaceOfWord(s: string)
    requires forall i | 0 <= i < |s| :: !IsSpace(s[i])
    ensures NonSpace(s) == s
    decreases |s|
  {
    if s != [] {
      NonSpaceOfWord(s[1..]);
    }
  }

  /** The fields hold exactly the non-white-space characters of `s`, in order. */
  lemma {:induction false} FieldsKeepNonSpace(s: string)
    ensures Concat(Fields(s)) == NonSpace(s)
    decreases |s|
  {
    var t := s[LeadingSpaces(s)..];
    NonSpaceAfterLeading(s);
    if t != [] {
      var n := WordLength(t);
      FieldsStep(s);
      NonSpaceAfterWord(t);
      FieldsKeepNonSpace(t[n..]);
      ConcatCons(t[..n], Fields(t[n..]));
    }
  }

  /** Leading white space contributes no non-white-space characters. */
  lemma {:induction false} NonSpaceAfterLeading(s: string)
    ensures NonSpace(s) == NonSpace(s[LeadingSpaces(s)..])
  {
    var a := LeadingSpaces(s);
    var t := s[a..];
    assert s == s[..a] + t;
    NonSpaceAppend(s[..a], t);
    LeadingAreSpaces(s);
    NonSpaceOfBlank(s[..a]);
  }

  /** A leading word is kept whole by NonSpace. */
  lemma {:induction false} NonSpaceAfterWord(t: string)
    ensures NonSpace(t) == t[..WordLength(t)] + NonSpace(t[WordLength(t)..])
  {
    var n := WordLength(t);
    assert t == t[..n] + t[n..];
    NonSpaceAppend(t[..n], t[n..]);
    NonSpaceOfWord(t[..n]);
  }

  /** Fields of a string that is not blank: its first word, then the fields of what follows that word. */
  lemma {:induction false} FieldsStep(s: string)
    requires LeadingSpaces(s) < |s|
    ensures var t := s[LeadingSpaces(s)..];
      Fields(s) == [t[..WordLength(t)]] + Fields(t[WordLength(t)..])
  {
  }

  lemma {:induction false} ConcatCons(w: string, ws: seq<string>)
    ensures Concat([w] + ws) == w + Concat(ws)
  {
    assert ([w] + ws)[1..] == ws;
  }

  /** A single run of non-white-space characters is its own only field. */
  lemma {:induction false} FieldsOfField(w: string)
    requires IsField(w)
    ensures Fields(w) == [w]
  {
    assert LeadingSpaces(w) == 0;
    assert w[0..] == w;
    var n := WordLength(w);
    assert n == |w|;
    assert w[..n] == w && w[n..] == [];
  }

  /** A word followed by white space is the first field of the whole. */
  lemma {:induction false} FieldsAfterWord(w: string, c: char, rest: string)
    requires IsField(w) && IsSpace(c)
    ensures Fields(w + [c] + rest) == [w] + Fields(rest)
  {
    FieldsSplitAtSpace(w, c, rest);
    FieldsOfField(w);
  }

  /** Two words, each followed by white space, are the first two fields, whatever follows them. */
  lemma {:induction false} TwoLeadingFields(a: string, c: char, b: string, d: char, more: string)
    requires IsField(a) && IsSpace(c) && IsField(b) && IsSpace(d)
    ensures Fields(a + [c] + b + [d] + more) == [a, b] + Fields(more)
    ensures Fields(a + [c] + b) == [a, b]
  {
    var h := a + [c] + b;
    assert Fields(h) == [a, b] by {
      FieldsAfterWord(a, c, b);
      FieldsOfField(b);
    }
    FieldsSplitAtSpace(h, d, more);
  }

  /** A white-space-only string has no fields, and only such a string. */
  lemma {:induction false} FieldsEmptyIffBlank(s: string)
    ensures Fields(s) == [] <==> Blank(s)
  {
    var a := LeadingSpaces(s);
    if a == |s| {
      LeadingAreSpaces(s);
      assert s[..a] == s;
    }
  }

  /** Fields never join across a white-space character: splitting at one splits the fields. */
  lemma {:induction false} FieldsSplitAtSpace(a: string, c: char, b: string)
    requires IsSpace(c)
    ensures Fields(a + [c] + b) == Fields(a) + Fields(b)
    decreases |a|
  {
    if LeadingSpaces(a) == |a| {
      BlankBeforeSpace(a, c, b);
    } else {
      var w, r := FirstFieldBeforeSpace(a, c, b);
      FieldsSplitAtSpace(r, c, b);
      ConcatAssociative([w], Fields(r), Fields(b));
    }
  }

  /** Kept apart so that the solver meets this step without the context of the lemma above. */
  lemma ConcatAssociative<X>(x: seq<X>, y: seq<X>, z: seq<X>)
    ensures x + (y + z) == (x + y) + z
  {
  }

  /** Splitting off the first field `w` of a non-blank `a` followed by a white-space character. */
  lemma {:induction false} FirstFieldBeforeSpace(a: string, c: char, b: string) returns (w: string, r: string)
    requires IsSpace(c) && LeadingSpaces(a) < |a|
    ensures |r| < |a|
    ensures Fields(a) == [w] + Fields(r)
    ensures Fields(a + [c] + b) == [w] + Fields(r + [c] + b)
  {
    var la := LeadingSpaces(a);
    var t := a[la..];
    var n := WordLength(t);
    FieldsStep(a);
    FirstWordExtended(a, c, b);
    FieldsStep(a + [c] + b);
    w, r := t[..n], t[n..];
  }

  /** Appending a white-space character and more to a non-blank `a` keeps its leading white space and first word. */
  lemma {:induction false} FirstWordExtended(a: string, c: char, b: string)
    requires IsSpace(c) && LeadingSpaces(a) < |a|
    ensures var s, la := a + [c] + b, LeadingSpaces(a);
      var t, ts := a[la..], s[la..];
      && LeadingSpaces(s) == la
      && WordLength(ts) == WordLength(t)
      && ts[..WordLength(t)] == t[..WordLength(t)]
      && ts[WordLength(t)..] == t[WordLength(t)..] + [c] + b
  {
    var la := LeadingSpaces(a);
    var t := a[la..];
    var n := WordLength(t);
    var u := [c] + b;
    ConcatAssociative(a, [c], b);
    LeadingNonBlank(a, u);
    SuffixOfAppend(a, u, la);
    WordLengthExtend(t, u);
    SplitOfAppend(t, u, n);
    ConcatAssociative(t[n..], [c], b);
  }

  lemma SuffixOfAppend<T>(a: seq<T>, u: seq<T>, k: nat)
    requires k <= |a|
    ensures (a + u)[k..] == a[k..] + u
  {
  }

  lemma SplitOfAppend<T>(t: seq<T>, u: seq<T>, n: nat)
    requires n <= |t|
    ensures (t + u)[..n] == t[..n] && (t + u)[n..] == t[n..] + u
  {
  }

  lemma {:induction false} BlankBeforeSpace(a: string, c: char, b: string)
    requires IsSpace(c) && LeadingSpaces(a) == |a|
    ensures Fields(a) == [] && Fields(a + [c] + b) == Fields(b)
  {
    assert a[..LeadingSpaces(a)] == a;
    FieldsEmptyIffBlank(a);
    FieldsOfBlankPrefix(a + [c], b);
  }
  lemma {:induction false} FieldsOfBlankPrefix(p: string, b: string)
    requires Blank(p)
    ensures Fields(p + b) == Fields(b)
  {
    LeadingBlank(p, b);
  }

  lemma {:induction false} LeadingBlank(p: string, b: string)
    requires Blank(p)
    ensures (p + b)[LeadingSpaces(p + b)..] == b[LeadingSpaces(b)..]
    decreases |p|
  {
    if p != [] {
      assert (p + b)[1..] == p[1..] + b;
      LeadingBlank(p[1..], b);
    } else {
      assert p + b == b;
    }
  }

  lemma {:induction false} LeadingNonBlank(p: string, b: string)
    requires LeadingSpaces(p) < |p|
    ensures LeadingSpaces(p + b) == LeadingSpaces(p)
    decreases |p|
  {
    if IsSpace(p[0]) {
      assert (p + b)[1..] == p[1..] + b;
      LeadingNonBlank(p[1..], b);
    }
  }

  lemma {:induction false} WordLengthExtend(t: string, b: string)
    requires t != [] && !IsSpace(t[0])
    requires WordLength(t) == |t| ==> (b != [] && IsSpace(b[0]))
    ensures WordLength(t + b) == WordLength(t)
    decreases |t|
  {
    var tb := t + b;
    assert tb[0] == t[0];
    assert tb[1..] == t[1..] + b;
    assert WordLength(tb) == 1 + WordLength(t[1..] + b);
    assert WordLength(t) == 1 + WordLength(t[1..]);
    if |t| == 1 {
      assert t[1..] + b == b;
    } else if IsSpace(t[1]) {
      assert (t[1..] + b)[0] == t[1];
    } else {
      WordLengthExtend(t[1..], b);
    }
  }

  /** strings.ToLower for one character; only the ASCII letters are mapped. */
  function ToLowerChar(c: char): char {
    if 'A' <= c <= 'Z' then (c as int + 32) as char else c
  }

  function ToLower(s: string): (t: string)
    ensures |t| == |s|
    ensures forall i | 0 <= i < |s| :: t[i] == ToLowerChar(s[i])
  {
    if s == [] then [] else [ToLowerChar(s[0])] + ToLower(s[1..])
  }
}
