/** The string primitives the dashboard relies on, with the JavaScript meaning
    the code gives them: `trim`, `split` on one character, `join`, `includes`,
    and the decimal rendering of a whole number. */
module Text {
  import opened Seqs

  /** The characters JavaScript's `String.prototype.trim` removes: the
      WhiteSpace and LineTerminator productions of ECMA-262 (sections 12.2 and
      12.3), that is tab, vertical tab, form feed, space, no-break space, the
      byte order mark, the space separators of Unicode category Zs, and the
      four line terminators. */
  const Whitespace: set<char> := {
    '\t', '\U{000B}', '\U{000C}', ' ', '\U{00A0}', '\U{FEFF}', '\U{1680}',
    '\U{2000}', '\U{2001}', '\U{2002}', '\U{2003}', '\U{2004}', '\U{2005}',
    '\U{2006}', '\U{2007}', '\U{2008}', '\U{2009}', '\U{200A}',
    '\U{202F}', '\U{205F}', '\U{3000}',
    '\n', '\r', '\U{2028}', '\U{2029}'}

  predicate IsWhitespace(c: char) {
    c in Whitespace
  }

  /** Every character is whitespace (the empty string included). */
  predicate IsBlank(s: string) {
    forall i :: 0 <= i < |s| ==> IsWhitespace(s[i])
  }

  /** Neither end of `s` is whitespace: `trim` leaves it as it is. */
  predicate IsTrimmed(s: string) {
    |s| == 0 || (!IsWhitespace(s[0]) && !IsWhitespace(s[|s| - 1]))
  }

  /** `s` with its leading whitespace removed. */
  function TrimStart(s: string): (r: string)
    ensures |r| <= |s| && r == s[|s| - |r|..]
    ensures forall i :: 0 <= i < |s| - |r| ==> IsWhitespace(s[i])
    ensures |r| == 0 || !IsWhitespace(r[0])
  {
    if |s| > 0 && IsWhitespace(s[0]) then
      var r := TrimStart(s[1..]);
      LeadingBlankStep(s, r);
      r
    else s
  }

  /** A suffix of the tail after leading whitespace is a suffix of the whole
      after one more whitespace character. */
  lemma LeadingBlankStep(s: string, r: string)
    requires |s| > 0 && IsWhitespace(s[0])
    requires |r| <= |s| - 1 && r == s[1..][|s| - 1 - |r|..]
    requires forall i :: 0 <= i < |s| - 1 - |r| ==> IsWhitespace(s[1..][i])
    ensures r == s[|s| - |r|..]
    ensures forall i :: 0 <= i < |s| - |r| ==> IsWhitespace(s[i])
  {
    forall i | 1 <= i < |s| - |r| ensures IsWhitespace(s[i]) {
      assert s[i] == s[1..][i - 1];
    }
  }

  /** `s` with its trailing whitespace removed. */
  function TrimEnd(s: string): (r: string)
    ensures |r| <= |s| && r == s[..|r|]
    ensures forall i :: |r| <= i < |s| ==> IsWhitespace(s[i])
    ensures |r| == 0 || !IsWhitespace(r[|r| - 1])
  {
    if |s| > 0 && IsWhitespace(s[|s| - 1]) then TrimEnd(s[..|s| - 1]) else s
  }

  /** JavaScript's `s.trim()`. */
  function Trim(s: string): (r: string)
    ensures IsTrimmed(r)
    ensures forall c :: c in r ==> c in s
    ensures r == "" <==> IsBlank(s)
    ensures IsTrimmed(s) ==> r == s
  {
    var t := TrimStart(s);
    TrimBlank(s, t);
    TrimEnd(t)
  }

  /** What `Trim` removes is whitespace: nothing is left exactly when `s` is blank. */
  lemma TrimBlank(s: string, t: string)
    requires t == TrimStart(s)
    ensures TrimEnd(t) == "" <==> IsBlank(s)
  {
    if TrimEnd(t) == "" {
      assert t == "";
    }
  }

  /** `s` is `k` whitespace characters, then `r`, then only whitespace. */
  predicate StripsTo(s: string, k: int, r: string) {
    0 <= k <= |s| - |r| && r == s[k..k + |r|] && IsBlank(s[..k]) && IsBlank(s[k + |r|..])
  }

  /** `Trim` removes the leading and the trailing whitespace and nothing
      else: its result is the infix of `s` that only whitespace surrounds. */
  lemma TrimStripsEnds(s: string)
    ensures exists k :: StripsTo(s, k, Trim(s))
  {
    var t := TrimStart(s);
    var r := TrimEnd(t);
    var k := |s| - |t|;
    assert r == Trim(s);
    LeadingBlank(s);
    TrailingBlank(t);
    TrimParts(s, t, r, k);
  }

  /** What `TrimStart` drops is blank. */
  lemma LeadingBlank(s: string)
    ensures IsBlank(s[..|s| - |TrimStart(s)|])
  {
    var head := s[..|s| - |TrimStart(s)|];
    forall i | 0 <= i < |head| ensures IsWhitespace(head[i]) {
      assert head[i] == s[i];
    }
  }

  /** What `TrimEnd` drops is blank. */
  lemma TrailingBlank(t: string)
    ensures IsBlank(t[|TrimEnd(t)|..])
  {
    var tail := t[|TrimEnd(t)|..];
    forall i | 0 <= i < |tail| ensures IsWhitespace(tail[i]) {
      assert tail[i] == t[|TrimEnd(t)| + i];
    }
  }

  /** Cutting a prefix of length `k` and then keeping a prefix `r` of the
      rest leaves `r` as an infix of `s` between the two blank ends. */
  lemma TrimParts(s: string, t: string, r: string, k: int)
    requires 0 <= k <= |s| && t == s[k..] && |r| <= |t| && r == t[..|r|]
    requires IsBlank(s[..k]) && IsBlank(t[|r|..])
    ensures StripsTo(s, k, r)
  {
    assert s[k + |r|..] == t[|r|..];
  }

  /** The number of occurrences of `c` in `s`. */
  function Count(s: string, c: char): (n: nat)
    ensures n <= |s|
    ensures n == 0 <==> c !in s
  {
    if |s| == 0 then 0
    else Count(s[..|s| - 1], c) + (if s[|s| - 1] == c then 1 else 0)
  }

  /** `s` with every occurrence of `c` dropped. */
  function Remove(s: string, c: char): (r: string)
    ensures c !in r
    ensures |r| == |s| - Count(s, c)
    ensures c !in s ==> r == s
  {
    if |s| == 0 then ""
    else Remove(s[..|s| - 1], c) + (if s[|s| - 1] == c then "" else [s[|s| - 1]])
  }

  /** JavaScript's `parts.join(sep)` for a one-character separator. */
  function Join(parts: seq<string>, sep: char): string
  {
    if |parts| == 0 then ""
    else if |parts| == 1 then parts[0]
    else Join(parts[..|parts| - 1], sep) + [sep] + parts[|parts| - 1]
  }

  /** Appending text to the last part appends it to the joined string. */
  lemma JoinExtendLast(parts: seq<string>, x: string, y: string, sep: char)
    ensures Join(parts + [x + y], sep) == Join(parts + [x], sep) + y
  {
    if |parts| > 0 {
      assert (parts + [x + y])[..|parts|] == parts;
      assert (parts + [x])[..|parts|] == parts;
    }
  }

  /** Adding a part adds a separator and that part. */
  lemma JoinAppend(parts: seq<string>, x: string, sep: char)
    requires |parts| >= 1
    ensures Join(parts + [x], sep) == Join(parts, sep) + [sep] + x
  {
    assert (parts + [x])[..|parts|] == parts;
  }

  /** JavaScript's `s.split(sep)` for a one-character separator: the maximal
      separator-free pieces of `s`, in order. It is never empty: splitting ""
      gives [""]. */
  function Split(s: string, sep: char): (parts: seq<string>)
    ensures |parts| >= 1
    ensures forall i :: 0 <= i < |parts| ==> sep !in parts[i]
    ensures Join(parts, sep) == s
    ensures |parts| == Count(s, sep) + 1
  {
    if |s| == 0 then [""]
    else
      var init := Split(s[..|s| - 1], sep);
      var c := s[|s| - 1];
      if c == sep then
        JoinAppend(init, "", sep);
        init + [""]
      else
        var k := |init| - 1;
        ExtendLastPart(init, c, sep);
        DropLastSnoc(s);
        init[..k] + [init[k] + [c]]
  }

  /** Appending a non-separator to the last piece appends it to the joined
      text and keeps every piece separator-free. */
  lemma ExtendLastPart(parts: seq<string>, c: char, sep: char)
    requires |parts| >= 1 && c != sep
    requires forall i :: 0 <= i < |parts| ==> sep !in parts[i]
    ensures var r := parts[..|parts| - 1] + [parts[|parts| - 1] + [c]];
      && |r| == |parts|
      && (forall i :: 0 <= i < |r| ==> sep !in r[i])
      && Join(r, sep) == Join(parts, sep) + [c]
  {
    var k := |parts| - 1;
    JoinExtendLast(parts[..k], parts[k], [c], sep);
    DropLastSnoc(parts);
  }

  /** A separator-free string splits into itself. */
  lemma {:induction false} SplitSingle(x: string, sep: char)
    requires sep !in x
    ensures Split(x, sep) == [x]
  {
    if |x| > 0 {
      SplitSingle(x[..|x| - 1], sep);
    }
  }

  /** Splitting after a separator starts a new part holding the rest. */
  lemma {:induction false} SplitAfterSeparator(t: string, x: string, sep: char)
    requires sep !in x
    ensures Split(t + [sep] + x, sep) == Split(t, sep) + [x]
  {
    var u := t + [sep];
    if |x| == 0 {
      assert t + [sep] + x == u;
      assert u[..|u| - 1] == t;
    } else {
      var x' := x[..|x| - 1];
      var c := x[|x| - 1];
      var v := u + x';
      var w := v + [c];
      assert t + [sep] + x == w by {
        assert x == x' + [c];
      }
      assert w[..|w| - 1] == v;
      SplitAfterSeparator(t, x', sep);
      var init := Split(v, sep);
      assert init == Split(t, sep) + [x'] by {
        assert v == t + [sep] + x';
      }
      var k := |init| - 1;
      assert init[..k] == Split(t, sep);
      assert Split(w, sep) == init[..k] + [init[k] + [c]];
      assert init[k] + [c] == x;
    }
  }

  /** `split` undoes `join` when no part holds the separator: together with
      the contract of `Split` this makes the two mutually inverse. */
  lemma {:induction false} SplitJoin(parts: seq<string>, sep: char)
    requires |parts| >= 1
    requires forall i :: 0 <= i < |parts| ==> sep !in parts[i]
    ensures Split(Join(parts, sep), sep) == parts
  {
    if |parts| == 1 {
      SplitSingle(parts[0], sep);
    } else {
      var init := parts[..|parts| - 1];
      var last := parts[|parts| - 1];
      SplitJoin(init, sep);
      assert Join(parts, sep) == Join(init, sep) + [sep] + last;
      SplitAfterSeparator(Join(init, sep), last, sep);
      assert Split(Join(parts, sep), sep) == init + [last];
      DropLastSnoc(parts);
    }
  }

  /** JavaScript's `s.includes(sub)`; the empty string is included in every string. */
  predicate Contains(s: string, sub: string)
    decreases |s|
  {
    sub <= s || (|s| > 0 && Contains(s[1..], sub))
  }

  /** `sub` occurs in `s` starting at offset `k`. */
  predicate OccursAt(s: string, sub: string, k: int) {
    0 <= k <= |s| - |sub| && s[k..k + |sub|] == sub
  }

  /** An occurrence in the tail is an occurrence one further on. */
  lemma OccursInTail(s: string, sub: string, k: int)
    requires |s| > 0 && 0 <= k
    ensures OccursAt(s[1..], sub, k) <==> OccursAt(s, sub, k + 1)
  {
    if 0 <= k <= |s| - 1 - |sub| {
      assert s[1..][k..k + |sub|] == s[k + 1..k + 1 + |sub|];
    }
  }

  /** An occurrence at offset 0 is exactly a prefix. */
  lemma OccursAtStart(s: string, sub: string)
    ensures OccursAt(s, sub, 0) <==> sub <= s
  {
    if sub <= s {
      assert s[0..|sub|] == sub;
    }
  }

  /** `Contains` holds exactly when `sub` occurs at some offset of `s`. */
  lemma {:induction false} ContainsAt(s: string, sub: string)
    ensures Contains(s, sub) <==> exists k :: OccursAt(s, sub, k)
    decreases |s|
  {
    if sub <= s {
      assert OccursAt(s, sub, 0);
    } else if |s| > 0 {
      ContainsAt(s[1..], sub);
      if exists k :: OccursAt(s, sub, k) {
        var k :| OccursAt(s, sub, k);
        OccursAtStart(s, sub);
        OccursInTail(s, sub, k - 1);
      }
      if exists k :: OccursAt(s[1..], sub, k) {
        var k :| OccursAt(s[1..], sub, k);
        OccursInTail(s, sub, k);
      }
    }
  }

  /** The decimal digit character for `d`. */
  function Digit(d: nat): char
    requires d < 10
  {
    ['0', '1', '2', '3', '4', '5', '6', '7', '8', '9'][d]
  }

  /** The value of a decimal digit character. */
  function DigitValue(c: char): nat
  {
    if '0' <= c <= '9' then (c as int - '0' as int) else 0
  }

  /** The value of a string of decimal digits. */
  function DecimalValue(s: string): nat
  {
    if |s| == 0 then 0 else 10 * DecimalValue(s[..|s| - 1]) + DigitValue(s[|s| - 1])
  }

  /** JavaScript's `n.toString()` for a whole number: its decimal digits, with no
      leading zero. */
  function DecimalString(n: nat): (r: string)
    ensures 1 <= |r|
    ensures forall i :: 0 <= i < |r| ==> '0' <= r[i] <= '9'
    ensures |r| > 1 ==> r[0] != '0'
    ensures DecimalValue(r) == n
  {
    if n < 10 then [Digit(n)]
    else
      var high := DecimalString(n / 10);
      AppendDigit(high, n % 10);
      high + [Digit(n % 10)]
  }

  /** Appending a digit multiplies the value by ten and adds the digit. */
  lemma AppendDigit(s: string, d: nat)
    requires d < 10
    ensures DecimalValue(s + [Digit(d)]) == 10 * DecimalValue(s) + d
    ensures '0' <= Digit(d) <= '9'
  {
    assert (s + [Digit(d)])[..|s|] == s;
  }
}
