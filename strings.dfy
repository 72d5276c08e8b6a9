/** The Python `str` operations the converter relies on, for a non-empty
    separator: `find`, `split`, `split(sep, 1)`, `join`, `replace`,
    `startswith`, `endswith`, `strip`, slicing from an index and `str(n)`.
    Strings are `seq<char>`; `strip` removes the ASCII characters Python's
    `str.isspace` accepts. */
module Strings {
  import opened Wrappers

  /** The characters `str.strip()` removes (the ASCII part of `str.isspace`). */
  predicate IsSpace(c: char) {
    c == ' ' || c == '\t' || c == '\n' || c == '\r' || c == '\U{0B}' || c == '\U{0C}'
    || ('\U{1C}' <= c <= '\U{1F}')
  }

  predicate StartsWith(s: string, prefix: string) {
    |prefix| <= |s| && s[..|prefix|] == prefix
  }

  predicate EndsWith(s: string, suffix: string) {
    |suffix| <= |s| && s[|s| - |suffix|..] == suffix
  }

  /** `sub` occurs in `s` at index `k`. */
  predicate OccursAt(s: string, sub: string, k: nat) {
    k + |sub| <= |s| && s[k..k + |sub|] == sub
  }

  predicate Contains(s: string, sub: string) {
    exists k: nat | k <= |s| :: OccursAt(s, sub, k)
  }

  /** The first index at or after `i` where `sub` occurs. */
  function FindFrom(s: string, sub: string, i: nat): (r: Option<nat>)
    requires i <= |s|
    ensures r.Some? ==> i <= r.value && OccursAt(s, sub, r.value)
    ensures r.Some? ==> forall k: nat :: i <= k < r.value ==> !OccursAt(s, sub, k)
    ensures r.None? ==> forall k: nat :: i <= k ==> !OccursAt(s, sub, k)
    decreases |s| - i
  {
    if OccursAt(s, sub, i) then Some(i)
    else if i == |s| then None
    else FindFrom(s, sub, i + 1)
  }

  /** `s.find(sub)`, with `None` for Python's -1 (and for `index` raising). */
  function IndexOf(s: string, sub: string): (r: Option<nat>)
    ensures r.Some? <==> Contains(s, sub)
    ensures r.Some? ==> OccursAt(s, sub, r.value)
    ensures r.Some? ==> forall k: nat :: k < r.value ==> !OccursAt(s, sub, k)
  {
    FindFrom(s, sub, 0)
  }

  /** `s.split(sep)`: the pieces between successive leftmost occurrences. */
  function Split(s: string, sep: string): (parts: seq<string>)
    requires sep != ""
    ensures |parts| >= 1
    decreases |s|
  {
    match IndexOf(s, sep)
    case None => [s]
    case Some(k) => [s[..k]] + Split(s[k + |sep|..], sep)
  }

  /** `s.split(sep, 1)`: at most one split, at the first occurrence. */
  function SplitOnce(s: string, sep: string): (parts: seq<string>)
    requires sep != ""
    ensures |parts| == 1 || |parts| == 2
  {
    match IndexOf(s, sep)
    case None => [s]
    case Some(k) => [s[..k], s[k + |sep|..]]
  }

  /** `split(sep, 1)` splits exactly when `sep` occurs; then the two parts
      around `sep` give back `s`, and the first part does not contain `sep`. */
  lemma SplitOnceParts(s: string, sep: string)
    requires sep != ""
    ensures var parts := SplitOnce(s, sep);
            (|parts| == 1 <==> !Contains(s, sep)) &&
            (|parts| == 1 ==> parts[0] == s) &&
            (|parts| == 2 ==> parts[0] + sep + parts[1] == s && !Contains(parts[0], sep))
  {
    match IndexOf(s, sep)
    case None =>
    case Some(k) =>
      PrefixBeforeFirstIsFree(s, sep, k);
      assert s == s[..k] + s[k..k + |sep|] + s[k + |sep|..];
  }

  /** Where `sep` occurs at `p`, `split(sep, 1)` cuts at the first
      occurrence, which is at or before `p`. */
  lemma SplitOnceAt(s: string, sep: string, p: nat)
    requires sep != "" && OccursAt(s, sep, p)
    ensures var parts := SplitOnce(s, sep);
            |parts| == 2 && |parts[0]| <= p && parts[0] == s[..|parts[0]|] &&
            parts[1] == s[|parts[0]| + |sep|..]
  {
    assert Contains(s, sep);
    var k := IndexOf(s, sep).value;
    assert k <= p;
  }

  /** Where `sep` occurs at `p`, `split(sep, 1)` of the text from `off <= p`
      on cuts it, and the text after the cut starts no later than the end of
      that occurrence. */
  lemma SplitOnceSuffix(s: string, off: nat, sep: string, p: nat) returns (next: nat)
    requires sep != "" && off <= p && OccursAt(s, sep, p)
    ensures var parts := SplitOnce(s[off..], sep);
            |parts| == 2 && off + |sep| <= next <= p + |sep| && parts[1] == s[next..] &&
            s[off..] == parts[0] + sep + parts[1]
  {
    var r := s[off..];
    assert r[p - off..p - off + |sep|] == s[p..p + |sep|];
    SplitOnceAt(r, sep, p - off);
    SplitOnceParts(r, sep);
    next := off + |SplitOnce(r, sep)[0]| + |sep|;
    assert r[next - off..] == s[next..];
  }

  /** `sep.join(parts)`. */
  function Join(parts: seq<string>, sep: string): string {
    if |parts| == 0 then ""
    else if |parts| == 1 then parts[0]
    else parts[0] + sep + Join(parts[1..], sep)
  }

  /** `s.replace(old, new)` for a non-empty `old`. */
  function Replace(s: string, pat: string, rep: string): string
    requires pat != ""
  {
    Join(Split(s, pat), rep)
  }

  /** `s.lstrip()`. */
  function StripStart(s: string): (r: string)
    ensures |r| <= |s| && r == s[|s| - |r|..]
    ensures r == [] || !IsSpace(r[0])
    ensures forall k :: 0 <= k < |s| - |r| ==> IsSpace(s[k])
  {
    if s != [] && IsSpace(s[0]) then
      var r := StripStart(s[1..]);
      assert forall k :: 1 <= k < |s| ==> s[k] == s[1..][k - 1];
      r
    else s
  }

  /** `s.rstrip()`. */
  function StripEnd(s: string): (r: string)
    ensures |r| <= |s| && r == s[..|r|]
    ensures r == [] || !IsSpace(r[|r| - 1])
    ensures forall k :: |r| <= k < |s| ==> IsSpace(s[k])
  {
    if s != [] && IsSpace(s[|s| - 1]) then StripEnd(s[..|s| - 1]) else s
  }

  /** `s.strip()`: neither end of the result is whitespace. */
  function Strip(s: string): (r: string)
    ensures |r| <= |s|
    ensures r == [] || (!IsSpace(r[0]) && !IsSpace(r[|r| - 1]))
  {
    StripEnd(StripStart(s))
  }

  /** `s[n:]` for `n >= 0`: Python clamps an index past the end. */
  function Drop(s: string, n: nat): string {
    if n <= |s| then s[n..] else ""
  }

  function Digit(d: nat): char
    requires d < 10
  {
    ('0' as int + d) as char
  }

  /** `str(n)` for a non-negative integer: its decimal digits. */
  function NatToString(n: nat): (r: string)
    ensures |r| >= 1
    ensures forall k :: 0 <= k < |r| ==> '0' <= r[k] <= '9'
    decreases n
  {
    if n < 10 then [Digit(n)] else NatToString(n / 10) + [Digit(n % 10)]
  }

  /** The number a string of decimal digits spells, most significant digit
      first. */
  function DigitsValue(s: string): int
    decreases |s|
  {
    if s == [] then 0 else 10 * DigitsValue(s[..|s| - 1]) + (s[|s| - 1] as int - '0' as int)
  }

  /** `str(n)` spells `n`, and has no leading zero unless `n` is zero. */
  lemma {:induction false} NatToStringValue(n: nat)
    ensures DigitsValue(NatToString(n)) == n
    ensures NatToString(n)[0] == '0' <==> n == 0
    decreases n
  {
    if n >= 10 {
      NatToStringValue(n / 10);
      var front := NatToString(n / 10);
      var s := front + [Digit(n % 10)];
      assert s[..|s| - 1] == front && s[0] == front[0];
    }
  }

  /** Different numbers have different decimals. */
  lemma NatToStringInjective(m: nat, n: nat)
    ensures NatToString(m) == NatToString(n) <==> m == n
  {
    NatToStringValue(m);
    NatToStringValue(n);
  }

  // ---------------------------------------------------------------------
  // Occurrences

  lemma OccursInSlice(s: string, sub: string, i: nat, j: nat, k: nat)
    requires i <= j <= |s|
    requires OccursAt(s[i..j], sub, k)
    ensures OccursAt(s, sub, i + k)
  {
    var t := s[i..j];
    assert t[k..k + |sub|] == sub;
    assert forall m :: 0 <= m < |sub| ==> sub[m] == s[i + k + m];
    assert s[i + k..i + k + |sub|] == sub;
  }

  /** The text before the first occurrence of `sep` holds no `sep`. */
  lemma PrefixBeforeFirstIsFree(s: string, sep: string, k: nat)
    requires sep != "" && IndexOf(s, sep) == Some(k)
    ensures !Contains(s[..k], sep)
  {
    forall j: nat | OccursAt(s[..k], sep, j)
      ensures false
    {
      OccursInSlice(s, sep, 0, k, j);
    }
  }

  /** An occurrence with none before it is the one `IndexOf` finds. */
  lemma IndexOfIs(s: string, sub: string, k: nat)
    requires OccursAt(s, sub, k)
    requires forall j: nat :: j < k ==> !OccursAt(s, sub, j)
    ensures IndexOf(s, sub) == Some(k)
  {
    assert Contains(s, sub);
  }

  /** A text holding `sub` at `n` holds it first at some `k <= n`. */
  lemma FirstAtOrBefore(s: string, sub: string, n: nat) returns (k: nat)
    requires OccursAt(s, sub, n)
    ensures k <= n && OccursAt(s, sub, k)
    ensures forall j: nat :: j < k ==> !OccursAt(s, sub, j)
  {
    assert Contains(s, sub);
    k := IndexOf(s, sub).value;
  }

  /** Occurrences in `[c] + b` from position 1 on are those of `b`, one
      position later. */
  lemma OccursShift(c: char, b: string, sub: string, p: nat)
    requires 1 <= p
    ensures OccursAt([c] + b, sub, p) <==> OccursAt(b, sub, p - 1)
  {
    var s := [c] + b;
    if p + |sub| <= |s| {
      assert s[p..p + |sub|] == b[p - 1..p - 1 + |sub|];
    }
  }

  /** Two texts that agree on their first `n` characters have the same
      occurrences among those characters. */
  lemma OccursSamePrefix(x: string, y: string, sub: string, n: nat, p: nat)
    requires n <= |x| && n <= |y| && x[..n] == y[..n] && p + |sub| <= n
    ensures OccursAt(x, sub, p) <==> OccursAt(y, sub, p)
  {
    assert x[p..p + |sub|] == x[..n][p..p + |sub|];
    assert y[p..p + |sub|] == y[..n][p..p + |sub|];
  }

  lemma NotContainsIndexOf(s: string, sub: string)
    requires !Contains(s, sub)
    ensures IndexOf(s, sub) == None
  {
  }

  // ---------------------------------------------------------------------
  // split and join

  /** Joining the parts of a split with the separator gives the text back. */
  lemma {:induction false} SplitJoin(s: string, sep: string)
    requires sep != ""
    ensures Join(Split(s, sep), sep) == s
    decreases |s|
  {
    match IndexOf(s, sep)
    case None =>
    case Some(k) =>
      var rest := s[k + |sep|..];
      var parts := Split(rest, sep);
      SplitJoin(rest, sep);
      assert Split(s, sep) == [s[..k]] + parts;
      assert ([s[..k]] + parts)[1..] == parts;
      assert Join([s[..k]] + parts, sep) == s[..k] + sep + Join(parts, sep);
      assert s == s[..k] + s[k..k + |sep|] + rest;
  }

  /** No part of a split contains the separator. */
  lemma {:induction false} SplitPartsFree(s: string, sep: string)
    requires sep != ""
    ensures forall i :: 0 <= i < |Split(s, sep)| ==> !Contains(Split(s, sep)[i], sep)
    decreases |s|
  {
    match IndexOf(s, sep)
    case None =>
    case Some(k) =>
      var rest := s[k + |sep|..];
      SplitPartsFree(rest, sep);
      PrefixBeforeFirstIsFree(s, sep, k);
      assert Split(s, sep) == [s[..k]] + Split(rest, sep);
  }

  /** Text without the separator splits into itself alone. */
  lemma SplitAbsent(s: string, sep: string)
    requires sep != "" && !Contains(s, sep)
    ensures Split(s, sep) == [s]
  {
  }

  /** Joining one more part adds the separator and that part. */
  lemma {:induction false} JoinSnoc(parts: seq<string>, p: string, sep: string)
    requires parts != []
    ensures Join(parts + [p], sep) == Join(parts, sep) + sep + p
    decreases |parts|
  {
    if |parts| == 1 {
      assert (parts + [p])[1..] == [p];
    } else {
      assert (parts + [p])[1..] == parts[1..] + [p];
      JoinSnoc(parts[1..], p, sep);
    }
  }

  /** `JoinSnoc` read from the other side: the last part comes after the
      join of the others. */
  lemma JoinLast(parts: seq<string>, sep: string)
    requires |parts| > 1
    ensures Join(parts, sep) == Join(parts[..|parts| - 1], sep) + sep + parts[|parts| - 1]
  {
    assert parts == parts[..|parts| - 1] + [parts[|parts| - 1]];
    JoinSnoc(parts[..|parts| - 1], parts[|parts| - 1], sep);
  }

  /** Concatenating the parts (joining with the empty separator) ends with
      the last part. */
  lemma ConcatLast(parts: seq<string>)
    requires |parts| > 1
    ensures Join(parts, "") == Join(parts[..|parts| - 1], "") + parts[|parts| - 1]
  {
    FrontLast(parts);
    JoinSnoc(parts[..|parts| - 1], parts[|parts| - 1], "");
  }

  /** Splitting `a + sep + b`, when the first `sep` is the one after `a`. */
  lemma SplitPrefix(a: string, sep: string, b: string)
    requires sep != ""
    requires forall k: nat :: k < |a| ==> !OccursAt(a + sep + b, sep, k)
    ensures Split(a + sep + b, sep) == [a] + Split(b, sep)
  {
    var s := a + sep + b;
    assert s[|a|..|a| + |sep|] == sep;
    IndexOfIs(s, sep, |a|);
    assert s[..|a|] == a;
    assert s[|a| + |sep|..] == b;
  }

  /** `sep + b + sep` splits into an empty part, `b` and an empty part when
      the closing `sep` is the first occurrence after the opening one. */
  lemma SplitEnclosed(b: string, sep: string)
    requires sep != ""
    requires forall k: nat :: k < |b| ==> !OccursAt(b + sep, sep, k)
    ensures Split(sep + b + sep, sep) == ["", b, ""]
  {
    var t := b + sep;
    assert sep + b + sep == "" + sep + t;
    SplitPrefix("", sep, t);
    assert Split(sep + b + sep, sep) == [""] + Split(t, sep);
    assert t == b + sep + "";
    SplitPrefix(b, sep, "");
    SplitAbsent("", sep);
    assert Split(t, sep) == [b, ""];
  }

  /** In `b + "**"`, no `**` starts inside `b` when `b` has none and does not
      end in `*`. */
  lemma NoStraddle(b: string)
    requires b != "" && !Contains(b, "**") && b[|b| - 1] != '*'
    ensures forall k: nat :: k < |b| ==> !OccursAt(b + "**", "**", k)
  {
    var w := b + "**";
    forall k: nat | k < |b|
      ensures !OccursAt(w, "**", k)
    {
      if k + 2 <= |b| {
        assert w[k..k + 2] == b[k..k + 2];
        assert !OccursAt(b, "**", k);
      } else {
        assert w[k] == b[k];
      }
    }
  }

  /** One step of `split`: no separator gives the text itself, otherwise
      the text before the first separator comes first. */
  lemma SplitAtFirst(s: string, sep: string)
    requires sep != ""
    ensures IndexOf(s, sep).None? ==> Split(s, sep) == [s]
    ensures IndexOf(s, sep).Some? ==>
              var k := IndexOf(s, sep).value;
              Split(s, sep) == [s[..k]] + Split(s[k + |sep|..], sep)
  {
  }

  /** The number of times `c` occurs in `s`. */
  function CountChar(s: string, c: char): nat
    decreases |s|
  {
    if s == [] then 0 else (if s[0] == c then 1 else 0) + CountChar(s[1..], c)
  }

  /** Concatenation is associative. */
  lemma AppendAssoc<T>(a: seq<T>, b: seq<T>, c: seq<T>)
    ensures a + b + c == a + (b + c)
  {
  }

  /** A non-empty sequence is its head followed by its tail. */
  lemma HeadTail<T>(s: seq<T>)
    requires s != []
    ensures s == [s[0]] + s[1..]
  {
    assert ([s[0]] + s[1..])[0] == s[0];
  }

  /** A non-empty sequence is its front followed by its last element. */
  lemma FrontLast<T>(s: seq<T>)
    requires s != []
    ensures s == s[..|s| - 1] + [s[|s| - 1]]
  {
  }

  /** The front and the last element of a concatenation whose second part
      is not empty. */
  lemma AppendFrontLast<T>(a: seq<T>, b: seq<T>)
    requires b != []
    ensures (a + b)[..|a + b| - 1] == a + b[..|b| - 1] && (a + b)[|a + b| - 1] == b[|b| - 1]
  {
  }

  /** The head and the tail of a concatenation whose first part is not empty. */
  lemma ConsAppend<T>(a: seq<T>, b: seq<T>)
    requires a != []
    ensures (a + b)[0] == a[0] && (a + b)[1..] == a[1..] + b
  {
  }

  /** A character occurs at most once per position. */
  lemma {:induction false} CountCharBound(s: string, c: char)
    ensures CountChar(s, c) <= |s|
    decreases |s|
  {
    if s != [] {
      CountCharBound(s[1..], c);
    }
  }

  /** Counting over a concatenation adds up. */
  lemma {:induction false} CountCharAppend(a: string, b: string, c: char)
    ensures CountChar(a + b, c) == CountChar(a, c) + CountChar(b, c)
    decreases |a|
  {
    if a != [] {
      assert (a + b)[0] == a[0];
      assert (a + b)[1..] == a[1..] + b;
      CountCharAppend(a[1..], b, c);
    } else {
      assert a + b == b;
    }
  }

  /** A text without `c` counts none. */
  lemma {:induction false} CountCharNone(a: string, c: char)
    requires forall k :: 0 <= k < |a| ==> a[k] != c
    ensures CountChar(a, c) == 0
    decreases |a|
  {
    if a != [] {
      assert forall k :: 0 <= k < |a[1..]| ==> a[1..][k] == a[k + 1];
      CountCharNone(a[1..], c);
    }
  }

  /** Splitting on one character gives one part more than it occurs. */
  lemma {:induction false} SplitCharCount(s: string, c: char)
    ensures |Split(s, [c])| == CountChar(s, c) + 1
    decreases |s|
  {
    SplitAtFirst(s, [c]);
    match IndexOf(s, [c])
    case None =>
      forall k | 0 <= k < |s|
        ensures s[k] != c
      {
        assert s[k..k + 1][0] == s[k];
        assert !OccursAt(s, [c], k);
      }
      CountCharNone(s, c);
    case Some(k) =>
      var before := s[..k];
      var rest := s[k + 1..];
      SplitCharCount(rest, c);
      forall j | 0 <= j < |before|
        ensures before[j] != c
      {
        assert s[j..j + 1][0] == s[j];
        assert !OccursAt(s, [c], j);
      }
      CountCharNone(before, c);
      assert s[k..k + 1][0] == s[k];
      assert s == before + [c] + rest;
      CountCharAppend(before + [c], rest, c);
      CountCharAppend(before, [c], c);
      assert CountChar([c], c) == 1;
  }

  /** An odd number of occurrences of `c` splits into an even number of parts. */
  lemma OddCountEvenParts(s: string, c: char)
    requires CountChar(s, c) % 2 == 1
    ensures |Split(s, [c])| % 2 == 0
  {
    SplitCharCount(s, c);
  }

  /** A split has more than one part exactly when the separator occurs. */
  lemma SplitSeveral(s: string, sep: string)
    requires sep != ""
    ensures |Split(s, sep)| > 1 <==> Contains(s, sep)
  {
    SplitAtFirst(s, sep);
    if IndexOf(s, sep).Some? {
      var k := IndexOf(s, sep).value;
      var rest := Split(s[k + |sep|..], sep);
      assert |[s[..k]] + rest| == 1 + |rest|;
    }
  }

  /** The first part of a split is a prefix of the text. */
  lemma SplitFirst(s: string, sep: string)
    requires sep != ""
    ensures StartsWith(s, Split(s, sep)[0])
  {
    match IndexOf(s, sep)
    case None =>
    case Some(k) =>
      assert Split(s, sep)[0] == s[..k];
  }

  /** Every character of `s` is whitespace. */
  predicate AllSpace(s: string) {
    forall k :: 0 <= k < |s| ==> IsSpace(s[k])
  }

  /** The parts of an all-whitespace text are all whitespace. */
  lemma {:induction false} SplitAllSpace(s: string, sep: string)
    requires sep != "" && AllSpace(s)
    ensures forall i :: 0 <= i < |Split(s, sep)| ==> AllSpace(Split(s, sep)[i])
    decreases |s|
  {
    var found, k := SplitCut(s, sep);
    if found {
      AllSpaceSlice(s, 0, k);
      AllSpaceSlice(s, k + |sep|, |s|);
      assert s[0..k] == s[..k] && s[k + |sep|..|s|] == s[k + |sep|..];
      SplitAllSpace(s[k + |sep|..], sep);
      AllSpaceCons(s[..k], Split(s[k + |sep|..], sep), Split(s, sep));
    }
  }

  /** Two texts that agree on their first `n` characters have the same first
      occurrence of `sub` when one of them has it ending by `n`. */
  lemma SamePrefixFirst(x: string, y: string, sub: string, n: nat, k: nat)
    requires n <= |x| && n <= |y| && x[..n] == y[..n] && k + |sub| <= n
    requires OccursAt(y, sub, k)
    requires forall j: nat :: j < k ==> !OccursAt(y, sub, j)
    ensures OccursAt(x, sub, k)
    ensures forall j: nat :: j < k ==> !OccursAt(x, sub, j)
    ensures x[..k] == y[..k]
  {
    forall j: nat | j <= k
      ensures OccursAt(x, sub, j) <==> OccursAt(y, sub, j)
    {
      OccursSamePrefix(x, y, sub, n, j);
    }
    assert x[..k] == x[..n][..k] && y[..k] == y[..n][..k];
  }

  /** Dropping a prefix of the first part of a concatenation. */
  lemma DropConcat(a: string, m: string, b: string, j: nat)
    requires j <= |a|
    ensures (a + m + b)[j..] == a[j..] + m + b
  {
  }

  /** A split at a known first occurrence of the separator. */
  lemma SplitAt(s: string, sep: string, k: nat)
    requires sep != "" && OccursAt(s, sep, k)
    requires forall j: nat :: j < k ==> !OccursAt(s, sep, j)
    ensures Split(s, sep) == [s[..k]] + Split(s[k + |sep|..], sep)
  {
    IndexOfIs(s, sep, k);
    SplitAtFirst(s, sep);
  }

  /** `SplitAtFirst` with the place of the cut as a plain result. */
  lemma SplitCut(s: string, sep: string) returns (found: bool, k: nat)
    requires sep != ""
    ensures !found ==> Split(s, sep) == [s]
    ensures found ==> k + |sep| <= |s| && Split(s, sep) == [s[..k]] + Split(s[k + |sep|..], sep)
  {
    SplitAtFirst(s, sep);
    found, k := IndexOf(s, sep).Some?, 0;
    if found {
      k := IndexOf(s, sep).value;
    }
  }

  lemma AllSpaceSlice(s: string, i: nat, j: nat)
    requires AllSpace(s) && i <= j <= |s|
    ensures AllSpace(s[i..j])
  {
    forall p | 0 <= p < j - i ensures IsSpace(s[i..j][p]) {
      assert s[i..j][p] == s[i + p];
    }
  }

  lemma AllSpaceCons(first: string, rest: seq<string>, all: seq<string>)
    requires AllSpace(first) && all == [first] + rest
    requires forall i :: 0 <= i < |rest| ==> AllSpace(rest[i])
    ensures forall i :: 0 <= i < |all| ==> AllSpace(all[i])
  {
    forall i | 0 <= i < |all| ensures AllSpace(all[i]) {
      if i > 0 {
        assert all[i] == rest[i - 1];
      }
    }
  }

  // ---------------------------------------------------------------------
  // replace

  /** `replace` cuts the text at every occurrence and glues in the new text. */
  lemma ReplaceParts(s: string, pat: string, rep: string) returns (parts: seq<string>)
    requires pat != ""
    ensures Join(parts, pat) == s
    ensures forall i :: 0 <= i < |parts| ==> !Contains(parts[i], pat)
    ensures Replace(s, pat, rep) == Join(parts, rep)
  {
    parts := Split(s, pat);
    SplitJoin(s, pat);
    SplitPartsFree(s, pat);
  }

  /** Replacing a string by itself changes nothing. */
  lemma ReplaceSelf(s: string, p: string)
    requires p != ""
    ensures Replace(s, p, p) == s
  {
    SplitJoin(s, p);
  }

  /** Replacing a whole text that is the pattern yields the replacement. */
  lemma ReplaceWhole(p: string, r: string)
    requires p != ""
    ensures Replace(p, p, r) == r
  {
    assert p[..|p|] == p;
    assert OccursAt(p, p, 0);
    assert IndexOf(p, p) == Some(0);
    assert p[0 + |p|..] == "";
    assert !OccursAt("", p, 0);
    assert IndexOf("", p) == None;
    assert Split(p, p) == [p[..0]] + Split("", p) == ["", ""];
    assert ["", ""][1..] == [""];
    assert Join(["", ""], r) == "" + r + Join([""], r) == r;
  }

  /** Replacing a string that does not occur changes nothing. */
  lemma ReplaceAbsent(s: string, p: string, r: string)
    requires p != "" && !Contains(s, p)
    ensures Replace(s, p, r) == s
  {
  }

  /** Joining a part in front of at least one other puts the separator between. */
  lemma JoinCons(p: string, parts: seq<string>, sep: string)
    requires parts != []
    ensures Join([p] + parts, sep) == p + sep + Join(parts, sep)
  {
    assert ([p] + parts)[1..] == parts;
  }

  /** One step of `replace`: the text up to the first occurrence, the
      replacement, and the rest replaced. */
  lemma ReplaceStep(s: string, pat: string, rep: string)
    requires pat != "" && Contains(s, pat)
    ensures var k := IndexOf(s, pat).value;
            Replace(s, pat, rep) == s[..k] + rep + Replace(s[k + |pat|..], pat, rep)
  {
    var k := IndexOf(s, pat).value;
    SplitAtFirst(s, pat);
    JoinCons(s[..k], Split(s[k + |pat|..], pat), rep);
  }

  /** Replacing one character by another changes exactly the places where
      it occurs, and nothing else. */
  lemma {:induction false} ReplaceChar(s: string, c: char, d: char)
    ensures |Replace(s, [c], [d])| == |s|
    ensures forall k :: 0 <= k < |s| ==> Replace(s, [c], [d])[k] == if s[k] == c then d else s[k]
    decreases |s|
  {
    match IndexOf(s, [c])
    case None =>
      forall k | 0 <= k < |s|
        ensures s[k] != c
      {
        assert !OccursAt(s, [c], k);
        assert s[k..k + 1] == [s[k]];
      }
    case Some(i) =>
      var rest := s[i + 1..];
      ReplaceChar(rest, c, d);
      ReplaceStep(s, [c], [d]);
      assert s[i..i + 1] == [c];
      forall k | 0 <= k < i
        ensures s[k] != c
      {
        assert !OccursAt(s, [c], k);
        assert s[k..k + 1] == [s[k]];
      }
  }

  // ---------------------------------------------------------------------
  // strip

  /** Stripping gives the empty string exactly for all-whitespace text. */
  lemma StripEmpty(s: string)
    ensures Strip(s) == [] <==> forall k :: 0 <= k < |s| ==> IsSpace(s[k])
  {

  }

  /** Text with non-space ends is its own strip. */
  lemma StripIdentity(s: string)
    requires s == [] || (!IsSpace(s[0]) && !IsSpace(s[|s| - 1]))
    ensures Strip(s) == s
  {
  }

  /** Stripping is idempotent. */
  lemma StripStrip(s: string)
    ensures Strip(Strip(s)) == Strip(s)
  {
    StripIdentity(Strip(s));
  }

  /** The strip of a text is a contiguous slice of it. */
  lemma StripSlice(s: string) returns (i: nat)
    ensures i + |Strip(s)| <= |s| && Strip(s) == s[i..i + |Strip(s)|]
  {
    var t := StripStart(s);
    i := |s| - |t|;
    assert Strip(s) == t[..|Strip(s)|];
  }

  /** A leading whitespace character does not change the strip. */
  lemma StripSpaceCons(c: char, s: string)
    requires IsSpace(c)
    ensures Strip([c] + s) == Strip(s)
  {
    assert ([c] + s)[1..] == s;
  }

  /** A slice of a text free of `sub` is free of `sub`. */
  lemma SliceFree(s: string, sub: string, i: nat, j: nat)
    requires i <= j <= |s| && !Contains(s, sub)
    ensures !Contains(s[i..j], sub)
  {
    forall k: nat | OccursAt(s[i..j], sub, k) ensures false {
      OccursInSlice(s, sub, i, j, k);
    }
  }

  /** The strip of a text free of `sub` is free of `sub`. */
  lemma StripFree(s: string, sub: string)
    requires !Contains(s, sub)
    ensures !Contains(Strip(s), sub)
  {
    var i := StripSlice(s);
    SliceFree(s, sub, i, i + |Strip(s)|);
  }
}
