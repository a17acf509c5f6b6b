/** Byte-string helpers shared by both prototype versions: substring search with
    the semantics of std::string::find, whitespace tokenising as performed by
    `operator>>` on a std::stringstream, and decimal text for sizes. Bytes are
    modelled as characters, so a byte string is a `string`. */
module Bytes {

  datatype Option<T> = None | Some(value: T)

  /** `t` occurs in `s` starting at index `j`. */
  ghost predicate OccursAt(s: string, t: string, j: int)
  {
    0 <= j && j + |t| <= |s| && s[j..j + |t|] == t
  }

  /** `t` occurs somewhere in `s`. */
  ghost predicate Occurs(s: string, t: string)
  {
    exists j :: OccursAt(s, t, j)
  }

  /** `s.find(t, from)`: the first index at or after `from` where `t` occurs. */
  function IndexOf(s: string, t: string, from: nat): (r: Option<nat>)
    decreases |s| - from
    ensures r.Some? ==> from <= r.value && OccursAt(s, t, r.value)
    ensures r.Some? ==> forall j :: from <= j < r.value ==> !OccursAt(s, t, j)
    ensures r.None? ==> forall j :: from <= j ==> !OccursAt(s, t, j)
  {
    if from + |t| > |s| then None
    else if s[from..from + |t|] == t then Some(from)
    else IndexOf(s, t, from + 1)
  }

  /** The first occurrence of `t` at or after `from` is what the search from `from` reports. */
  lemma IndexOfFirstOccurrence(s: string, t: string, from: nat, p: nat)
    requires from <= p && OccursAt(s, t, p)
    requires forall j :: from <= j < p ==> !OccursAt(s, t, j)
    ensures IndexOf(s, t, from) == Some(p)
  {
  }

  /** A one-character pattern occurs exactly where that character stands. */
  lemma OccursAtChar(s: string, t: string, j: int)
    requires |t| == 1
    ensures OccursAt(s, t, j) <==> 0 <= j < |s| && s[j] == t[0]
  {
    if 0 <= j < |s| {
      assert s[j..j + 1] == [s[j]];
    }
  }

  /** Searching for a one-character pattern finds the first position of that
      character at or after `from`. */
  lemma {:induction false} IndexOfCharIsFirst(s: string, t: string, from: nat)
    requires |t| == 1
    ensures IndexOf(s, t, from).Some? ==>
      var p := IndexOf(s, t, from).value;
      from <= p < |s| && s[p] == t[0] && t[0] !in s[from..p]
    ensures IndexOf(s, t, from).None? ==> from >= |s| || t[0] !in s[from..]
  {
    var r := IndexOf(s, t, from);
    if r.Some? {
      OccursAtChar(s, t, r.value);
      forall k | 0 <= k < r.value - from ensures s[from..r.value][k] != t[0] {
        OccursAtChar(s, t, from + k);
      }
    } else if from < |s| {
      forall k | 0 <= k < |s| - from ensures s[from..][k] != t[0] {
        OccursAtChar(s, t, from + k);
      }
    }
  }

  /** The characters the C locale's isspace accepts. */
  predicate IsSpace(c: char)
  {
    c == ' ' || c == '\t' || c == '\n' || c == '\U{0B}' || c == '\U{0C}' || c == '\r'
  }

  predicate NoSpace(s: string)
  {
    forall i :: 0 <= i < |s| ==> !IsSpace(s[i])
  }

  /** The leading run of non-space characters of `s`. */
  function Word(s: string): (w: string)
    ensures |w| <= |s| && w == s[..|w|] && NoSpace(w)
    ensures |w| < |s| ==> IsSpace(s[|w|])
  {
    if s == [] || IsSpace(s[0]) then [] else [s[0]] + Word(s[1..])
  }

  /** The successive results of `ss >> word` on a stream over `s`. */
  function Tokens(s: string): (ts: seq<string>)
    decreases |s|
    ensures forall i :: 0 <= i < |ts| ==> ts[i] != [] && NoSpace(ts[i])
  {
    if s == [] then []
    else if IsSpace(s[0]) then Tokens(s[1..])
    else
      var w := Word(s);
      assert w != [] by { assert |w| < |s| ==> IsSpace(s[|w|]); }
      [w] + Tokens(s[|w|..])
  }

  /** Whitespace before the first token is skipped. */
  lemma TokensSkipSpace(c: char, s: string)
    requires IsSpace(c)
    ensures Tokens([c] + s) == Tokens(s)
  {
    assert ([c] + s)[1..] == s;
  }

  /** A word followed by whitespace (or by nothing) is read as exactly one token. */
  lemma {:induction false} TokensOfWord(w: string, rest: string)
    requires w != [] && NoSpace(w)
    requires rest == [] || IsSpace(rest[0])
    ensures Tokens(w + rest) == [w] + Tokens(rest)
  {
    WordOfWord(w, rest);
    assert (w + rest)[|w|..] == rest;
  }

  lemma {:induction false} WordOfWord(w: string, rest: string)
    requires NoSpace(w)
    requires rest == [] || IsSpace(rest[0])
    ensures Word(w + rest) == w
  {
    if w == [] {
      assert w + rest == rest;
    } else {
      assert (w + rest)[0] == w[0];
      assert (w + rest)[1..] == w[1..] + rest;
      WordOfWord(w[1..], rest);
    }
  }

  predicate IsDigit(c: char)
  {
    '0' <= c <= '9'
  }

  predicate AllDigits(s: string)
  {
    forall i :: 0 <= i < |s| ==> IsDigit(s[i])
  }

  function DigitChar(d: nat): (c: char)
    requires d < 10
    ensures IsDigit(c) && c as int - '0' as int == d
  {
    ('0' as int + d) as char
  }

  /** The value of a string of decimal digits, most significant first. */
  function DigitsValue(s: string): nat
    requires AllDigits(s)
  {
    if s == [] then 0 else DigitsValue(s[..|s| - 1]) * 10 + (s[|s| - 1] as int - '0' as int)
  }

  /** `std::to_string(n)` / `ss << n` for an unsigned n: decimal digits, no leading zero. */
  function Decimal(n: nat): (s: string)
  {
    if n < 10 then [DigitChar(n)] else Decimal(n / 10) + [DigitChar(n % 10)]
  }

  /** Decimal text is a non-empty digit string that reads back as the same number. */
  lemma {:induction false} DecimalRoundTrip(n: nat)
    ensures Decimal(n) != [] && AllDigits(Decimal(n))
    ensures DigitsValue(Decimal(n)) == n
  {
    if n >= 10 {
      DecimalRoundTrip(n / 10);
      var s := Decimal(n);
      assert s[..|s| - 1] == Decimal(n / 10);
    }
  }

  lemma DigitsHaveNoSpace(s: string)
    requires AllDigits(s)
    ensures NoSpace(s)
  {
  }

  /** The strings of `ss` one after the other. */
  function Concat(ss: seq<string>): string
  {
    if ss == [] then [] else ss[0] + Concat(ss[1..])
  }

  lemma {:induction false} ConcatSplit(ss: seq<string>, k: nat)
    requires k <= |ss|
    ensures Concat(ss) == Concat(ss[..k]) + Concat(ss[k..])
  {
    if k > 0 {
      ConcatSplit(ss[1..], k - 1);
      assert ss[1..][..k - 1] == ss[..k][1..];
      assert ss[1..][k - 1..] == ss[k..];
    } else {
      assert ss[..0] == [];
      assert ss[0..] == ss;
    }
  }

  /** The first `j + 1` strings are the first one followed by the next `j`. */
  lemma ConcatPrefixStep(ss: seq<string>, j: nat)
    requires j < |ss|
    ensures Concat(ss[..j + 1]) == ss[0] + Concat(ss[1..][..j])
  {
    assert ss[..j + 1][1..] == ss[1..][..j];
  }

  lemma ConcatStep(ss: seq<string>, k: nat)
    requires k < |ss|
    ensures Concat(ss[k..]) == ss[k] + Concat(ss[k + 1..])
  {
    assert ss[k..][1..] == ss[k + 1..];
  }

  /** An occurrence survives anything appended after it. */
  lemma OccursExtend(s: string, t: string, u: string, j: int)
    requires OccursAt(s, t, j)
    ensures OccursAt(s + u, t, j)
  {
    assert (s + u)[j..j + |t|] == s[j..j + |t|];
  }

  /** `s.erase(s.find(t), |t|)` when `t` occurs, `s` unchanged otherwise. */
  function EraseFirst(s: string, t: string): (r: string)
    ensures !Occurs(s, t) ==> r == s
    ensures Occurs(s, t) ==> |r| + |t| == |s|
    ensures Occurs(s, t) ==> exists p :: OccursAt(s, t, p) && (forall j :: 0 <= j < p ==> !OccursAt(s, t, j))
                                          && r == s[..p] + s[p + |t|..]
  {
    match IndexOf(s, t, 0)
    case None => s
    case Some(p) =>
      var r := s[..p] + s[p + |t|..];
      assert OccursAt(s, t, p) && r == s[..p] + s[p + |t|..];
      r
  }

  /** `s` with its trailing whitespace erased (the `find_if` over the reversed
      string followed by `erase`). */
  function TrimEnd(s: string): (r: string)
    ensures |r| <= |s| && r == s[..|r|]
    ensures r == [] || !IsSpace(r[|r| - 1])
    ensures forall i :: |r| <= i < |s| ==> IsSpace(s[i])
  {
    if s != [] && IsSpace(s[|s| - 1]) then TrimEnd(s[..|s| - 1]) else s
  }

  /** The number of whitespace characters at the head of `s`. */
  function LeadingSpace(s: string): (k: nat)
    ensures k <= |s| && (k < |s| ==> !IsSpace(s[k]))
    ensures forall i :: 0 <= i < k ==> IsSpace(s[i])
  {
    if s != [] && IsSpace(s[0]) then 1 + LeadingSpace(s[1..]) else 0
  }

  /** `s` with its leading whitespace erased. */
  function TrimStart(s: string): string
  {
    s[LeadingSpace(s)..]
  }
}
