/**
 * The JavaScript string built-ins that the parsers of this project rely on,
 * over `string` (= `seq<char>`, one element per Unicode code point, so a
 * character outside the Basic Multilingual Plane is one element here where
 * JavaScript counts two code units):
 * `split` and `join` on a one-character separator, `trim`, `replace` of the
 * first occurrence of a literal pattern by the empty string, `toUpperCase`
 * (ASCII letters only) and `String(n)` for a non-negative integer.  The code
 * calls neither `indexOf` nor `startsWith`: `IndexOf` and `StartsWith` here
 * stand for the lazy search and the start anchor of the front-matter regular
 * expression and for the prefix pattern of a `KEYS` command.
 */
module Text {
  import opened Wrappers

  // ---------------------------------------------------------------- trim

  /** The WhiteSpace and LineTerminator code points of ECMAScript: exactly
      what `String.prototype.trim` removes from both ends. */
  predicate IsWhitespace(c: char)
  {
    c == '\t' || c == '\n' || c == '\U{B}' || c == '\U{C}' || c == '\r' || c == ' '
    || c == '\U{A0}' || c == '\U{1680}' || ('\U{2000}' <= c <= '\U{200A}')
    || c == '\U{2028}' || c == '\U{2029}' || c == '\U{202F}' || c == '\U{205F}'
    || c == '\U{3000}' || c == '\U{FEFF}'
  }

  predicate AllWhitespace(s: string)
  {
    forall i :: 0 <= i < |s| ==> IsWhitespace(s[i])
  }

  /** Length of the longest all-whitespace prefix of `s`. */
  function LeadingWhitespace(s: string): (n: nat)
    ensures n <= |s| && AllWhitespace(s[..n])
    ensures n < |s| ==> !IsWhitespace(s[n])
  {
    if s == [] || !IsWhitespace(s[0]) then 0 else 1 + LeadingWhitespace(s[1..])
  }

  /** Length of the longest all-whitespace suffix of `s`. */
  function TrailingWhitespace(s: string): (n: nat)
    ensures n <= |s| && AllWhitespace(s[|s| - n..])
    ensures n < |s| ==> !IsWhitespace(s[|s| - n - 1])
  {
    if s == [] || !IsWhitespace(s[|s| - 1]) then 0 else 1 + TrailingWhitespace(s[..|s| - 1])
  }

  /** `s.trim()`: the middle of `s` once the whitespace at both ends is cut. */
  function Trim(s: string): (r: string)
    ensures LeadingWhitespace(s) + |r| <= |s|
    ensures r == s[LeadingWhitespace(s)..LeadingWhitespace(s) + |r|]
    ensures AllWhitespace(s[LeadingWhitespace(s) + |r|..])
    ensures r == [] || (!IsWhitespace(r[0]) && !IsWhitespace(r[|r| - 1]))
  {
    var t := s[LeadingWhitespace(s)..];
    t[..|t| - TrailingWhitespace(t)]
  }

  lemma {:induction false} LeadingWhitespaceAppend(w: string, t: string)
    requires AllWhitespace(w)
    ensures LeadingWhitespace(w + t) == |w| + LeadingWhitespace(t)
    decreases |w|
  {
    if w == [] {
      assert w + t == t;
    } else {
      assert (w + t)[1..] == w[1..] + t;
      LeadingWhitespaceAppend(w[1..], t);
    }
  }

  lemma {:induction false} TrailingWhitespaceAppend(t: string, w: string)
    requires AllWhitespace(w)
    ensures TrailingWhitespace(t + w) == TrailingWhitespace(t) + |w|
    decreases |w|
  {
    if w == [] {
      assert t + w == t;
    } else {
      assert (t + w)[..|t + w| - 1] == t + w[..|w| - 1];
      TrailingWhitespaceAppend(t, w[..|w| - 1]);
    }
  }

  /** What `trim` keeps is determined by what it may cut: a text that neither
      starts nor ends with whitespace comes back unchanged from any padding. */
  lemma {:induction false} TrimPadded(w1: string, r: string, w2: string)
    requires AllWhitespace(w1) && AllWhitespace(w2)
    requires r == [] || (!IsWhitespace(r[0]) && !IsWhitespace(r[|r| - 1]))
    ensures Trim(w1 + r + w2) == r
  {
    var s := w1 + r + w2;
    if r == [] {
      assert s == w1 + w2;
      assert AllWhitespace(s);
      LeadingWhitespaceAppend(s, []);
      assert s + [] == s;
    } else {
      assert s == w1 + (r + w2);
      LeadingWhitespaceAppend(w1, r + w2);
      assert s[|w1|..] == r + w2;
      TrailingWhitespaceAppend(r, w2);
      assert (r + w2)[..|r|] == r;
    }
  }

  /** `trim` introduces no character: one absent from the text is absent from
      the result. */
  lemma TrimOmits(s: string, c: char)
    requires c !in s
    ensures c !in Trim(s)
  {
    var r := Trim(s);
    var a := LeadingWhitespace(s);
    assert forall k :: 0 <= k < |r| ==> r[k] == s[a + k];
  }

  lemma TrimIdempotent(s: string)
    ensures Trim(Trim(s)) == Trim(s)
  {
    var r := Trim(s);
    assert [] + r + [] == r;
    TrimPadded([], r, []);
  }

  // ------------------------------------------------------- split and join

  /** Index of the first `c` in `s`, or `|s|` when there is none. */
  function IndexOfChar(s: string, c: char): (i: nat)
    ensures i <= |s|
    ensures forall k :: 0 <= k < i ==> s[k] != c
    ensures i < |s| ==> s[i] == c
  {
    if s == [] || s[0] == c then 0 else 1 + IndexOfChar(s[1..], c)
  }

  /** The text before the first `c` holds no `c`. */
  lemma BeforeFirst(s: string, c: char)
    ensures c !in s[..IndexOfChar(s, c)]
  {
    var i := IndexOfChar(s, c);
    assert forall k :: 0 <= k < i ==> s[..i][k] == s[k];
  }

  /** In `a + [c] + b` with no `c` in `a`, the first `c` is the one after `a`. */
  lemma FirstOccurrence(a: string, c: char, b: string)
    requires c !in a
    ensures var s := a + [c] + b;
      IndexOfChar(s, c) == |a| && s[..|a|] == a && s[|a| + 1..] == b
  {
    var s := a + [c] + b;
    assert s[|a|] == c;
    assert forall k :: 0 <= k < |a| ==> s[k] == a[k];
    assert s[..|a|] == a;
    assert s[|a| + 1..] == b;
  }

  /** `s.split(sep)` for a one-character separator: the maximal runs of
      non-separator characters, in order; never empty. */
  function Split(s: string, sep: char): (parts: seq<string>)
    ensures |parts| >= 1
    ensures forall i :: 0 <= i < |parts| ==> sep !in parts[i]
    decreases |s|
  {
    if s == [] then [""]
    else
      var rest := Split(s[1..], sep);
      if s[0] == sep then [""] + rest else [[s[0]] + rest[0]] + rest[1..]
  }

  /** `parts.join(sep)`. */
  function Join(parts: seq<string>, sep: char): (r: string)
    ensures parts != [] ==> |parts[0]| <= |r| && r[..|parts[0]|] == parts[0]
  {
    if |parts| == 0 then ""
    else if |parts| == 1 then parts[0]
    else parts[0] + [sep] + Join(parts[1..], sep)
  }

  /** Joining pieces that hold no separator puts exactly one separator between
      each two neighbours. */
  lemma {:induction false} JoinSeparators(parts: seq<string>, sep: char)
    requires parts != []
    requires forall i :: 0 <= i < |parts| ==> sep !in parts[i]
    ensures multiset(Join(parts, sep))[sep] == |parts| - 1
  {
    assert sep !in multiset(parts[0]);
    if |parts| > 1 {
      var rest := parts[1..];
      forall i | 0 <= i < |rest| ensures sep !in rest[i] {
        assert rest[i] == parts[i + 1];
      }
      JoinSeparators(rest, sep);
      assert multiset(Join(parts, sep)) == multiset(parts[0]) + multiset([sep]) + multiset(Join(rest, sep));
    }
  }

  /** Joining the pieces of a split gives back the text. */
  lemma {:induction false} JoinSplit(s: string, sep: char)
    ensures Join(Split(s, sep), sep) == s
    decreases |s|
  {
    if s != [] {
      var rest := Split(s[1..], sep);
      JoinSplit(s[1..], sep);
      if s[0] == sep {
        assert ([""] + rest)[1..] == rest;
      } else if |rest| > 1 {
        var parts := [[s[0]] + rest[0]] + rest[1..];
        assert parts[1..] == rest[1..];
      }
    }
  }

  lemma {:induction false} SplitAppend(a: string, t: string, sep: char)
    requires sep !in a
    ensures Split(a + t, sep) == [a + Split(t, sep)[0]] + Split(t, sep)[1..]
    decreases |a|
  {
    var p := Split(t, sep);
    if a == [] {
      assert a + t == t;
      assert a + p[0] == p[0];
      assert [p[0]] + p[1..] == p;
    } else {
      assert (a + t)[0] == a[0] && (a + t)[1..] == a[1..] + t;
      SplitAppend(a[1..], t, sep);
      var rest := Split(a[1..] + t, sep);
      assert rest[0] == a[1..] + p[0] && rest[1..] == p[1..];
      assert [a[0]] + (a[1..] + p[0]) == a + p[0];
    }
  }

  /** Splitting a join of separator-free pieces gives back the pieces. */
  lemma {:induction false} SplitJoin(parts: seq<string>, sep: char)
    requires |parts| >= 1
    requires forall i :: 0 <= i < |parts| ==> sep !in parts[i]
    ensures Split(Join(parts, sep), sep) == parts
    decreases |parts|
  {
    if |parts| == 1 {
      SplitAppend(parts[0], "", sep);
      assert parts[0] + "" == parts[0];
    } else {
      var tail := Join(parts[1..], sep);
      SplitJoin(parts[1..], sep);
      assert Join(parts, sep) == parts[0] + ([sep] + tail);
      SplitAppend(parts[0], [sep] + tail, sep);
      assert ([sep] + tail)[1..] == tail;
      assert Split([sep] + tail, sep) == [""] + Split(tail, sep);
      assert parts[0] + "" == parts[0];
      assert parts == [parts[0]] + parts[1..];
    }
  }

  /** `split` cuts at the first separator and splits the rest again. */
  lemma SplitAtFirst(s: string, sep: char)
    ensures IndexOfChar(s, sep) == |s| ==> Split(s, sep) == [s]
    ensures IndexOfChar(s, sep) < |s| ==>
      Split(s, sep) == [s[..IndexOfChar(s, sep)]] + Split(s[IndexOfChar(s, sep) + 1..], sep)
  {
    var i := IndexOfChar(s, sep);
    assert sep !in s[..i];
    if i == |s| {
      assert s == s + "";
      SplitAppend(s, "", sep);
    } else {
      var t := s[i..];
      assert s == s[..i] + t;
      SplitAppend(s[..i], t, sep);
      assert t[0] == sep && t[1..] == s[i + 1..];
      assert Split(t, sep) == [""] + Split(s[i + 1..], sep);
      assert s[..i] + "" == s[..i];
    }
  }

  /** The first piece of a split is the text before the first separator, and
      the other pieces join back into the text after it. */
  lemma JoinAfterFirst(s: string, sep: char)
    ensures var i := IndexOfChar(s, sep);
      && Split(s, sep)[0] == s[..i]
      && Join(Split(s, sep)[1..], sep) == if i < |s| then s[i + 1..] else ""
  {
    var i := IndexOfChar(s, sep);
    SplitAtFirst(s, sep);
    if i < |s| {
      JoinSplit(s[i + 1..], sep);
      assert ([s[..i]] + Split(s[i + 1..], sep))[1..] == Split(s[i + 1..], sep);
    } else {
      assert s[..i] == s;
    }
  }

  /** The first two pieces of a split: the text before the first separator,
      and, when there is one, the text from it to the next separator or the
      end. */
  lemma SecondField(s: string, sep: char)
    ensures var i := IndexOfChar(s, sep);
      var parts := Split(s, sep);
      && parts[0] == s[..i]
      && (|parts| >= 2 <==> i < |s|)
      && (i < |s| ==> parts[1] == s[i + 1..][..IndexOfChar(s[i + 1..], sep)])
  {
    var i := IndexOfChar(s, sep);
    SplitAtFirst(s, sep);
    if i < |s| {
      var rest := s[i + 1..];
      SplitAtFirst(rest, sep);
      if IndexOfChar(rest, sep) == |rest| {
        assert rest[..|rest|] == rest;
      }
    } else {
      assert s[..i] == s;
    }
  }

  // ------------------------------------------------- search and replace

  predicate StartsWith(s: string, prefix: string)
  {
    |prefix| <= |s| && s[..|prefix|] == prefix
  }

  predicate OccursAt(s: string, pat: string, k: nat)
  {
    k + |pat| <= |s| && s[k..k + |pat|] == pat
  }

  function IndexFrom(s: string, pat: string, from: nat): (r: Option<nat>)
    ensures r.Some? ==> from <= r.value && OccursAt(s, pat, r.value)
    ensures r.Some? ==> forall k :: from <= k < r.value ==> !OccursAt(s, pat, k)
    ensures r.None? ==> forall k :: from <= k ==> !OccursAt(s, pat, k)
    decreases |s| - from
  {
    if from + |pat| > |s| then None
    else if s[from..from + |pat|] == pat then Some(from)
    else IndexFrom(s, pat, from + 1)
  }

  /** `s.indexOf(pat)`, with `None` for -1: the first position where `pat` occurs. */
  function IndexOf(s: string, pat: string): (r: Option<nat>)
    ensures r.Some? ==> OccursAt(s, pat, r.value)
    ensures r.Some? ==> forall k :: 0 <= k < r.value ==> !OccursAt(s, pat, k)
    ensures r.None? ==> forall k :: 0 <= k ==> !OccursAt(s, pat, k)
  {
    IndexFrom(s, pat, 0)
  }

  predicate Contains(s: string, pat: string)
  {
    IndexOf(s, pat).Some?
  }

  /** `s.replace(pat, "")` for a literal pattern: removes the first
      occurrence of `pat`, if any. */
  function RemoveFirst(s: string, pat: string): (r: string)
    ensures |r| <= |s|
    ensures forall c :: c in r ==> c in s
    ensures !Contains(s, pat) ==> r == s
    ensures forall k: nat {:trigger OccursAt(s, pat, k)} ::
      OccursAt(s, pat, k) && (forall j: nat :: j < k ==> !OccursAt(s, pat, j)) ==> r == s[..k] + s[k + |pat|..]
  {
    match IndexOf(s, pat)
    case None => s
    case Some(i) => s[..i] + s[i + |pat|..]
  }

  /** On a text that starts with the pattern, replacing the first occurrence
      cuts exactly that prefix. */
  lemma RemoveFirstOfPrefix(s: string, prefix: string)
    requires StartsWith(s, prefix)
    ensures RemoveFirst(s, prefix) == s[|prefix|..]
  {
    assert OccursAt(s, prefix, 0);
  }

  // ------------------------------------------------------ case and digits

  /** `toUpperCase` on one character, restricted to the ASCII letters. */
  function UpperAscii(c: char): char
  {
    if 'a' <= c <= 'z' then (c as int - 32) as char else c
  }

  function ToUpperAscii(s: string): (r: string)
    ensures |r| == |s|
    ensures forall i :: 0 <= i < |s| ==> r[i] == UpperAscii(s[i])
  {
    seq(|s|, i requires 0 <= i < |s| => UpperAscii(s[i]))
  }

  predicate IsDigit(c: char)
  {
    '0' <= c <= '9'
  }

  /** The number a sequence of decimal digits denotes, most significant
      first. */
  function DigitsValue(s: string): int
  {
    if s == [] then 0 else 10 * DigitsValue(s[..|s| - 1]) + (s[|s| - 1] as int - '0' as int)
  }

  /** `String(n)` for a non-negative integer: its decimal digits, which
      denote `n` and have no leading zero. */
  function DecimalString(n: nat): (r: string)
    ensures |r| >= 1
    ensures forall i :: 0 <= i < |r| ==> IsDigit(r[i])
    ensures DigitsValue(r) == n
    ensures r[0] == '0' ==> r == "0"
  {
    var digit := ('0' as int + n % 10) as char;
    if n < 10 then [digit]
    else
      var high := DecimalString(n / 10);
      assert (high + [digit])[..|high|] == high;
      high + [digit]
  }
}
