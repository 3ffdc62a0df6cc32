/**
 * The slice of Rust's `str` API the parsers use, over Dafny strings (sequences of Unicode
 * scalar values): whitespace trimming, splitting on a character or on whitespace, prefix
 * tests, decimal parsing of unsigned integers, and the UTF-8 encoding `str::bytes` yields.
 */
module Text {
  import opened Wrappers
  import opened Seqs

  /** `char::is_whitespace`: the characters with the Unicode White_Space property. */
  predicate IsSpace(c: char) {
    || ('\t' <= c <= '\r')
    || c == ' '
    || c == '\U{0085}'
    || c == '\U{00A0}'
    || c == '\U{1680}'
    || ('\U{2000}' <= c <= '\U{200A}')
    || c == '\U{2028}'
    || c == '\U{2029}'
    || c == '\U{202F}'
    || c == '\U{205F}'
    || c == '\U{3000}'
  }

  /** `str::trim_start`. */
  function TrimStart(s: string): (r: string)
    ensures |r| <= |s| && r == s[|s| - |r|..]
    ensures r == [] || !IsSpace(r[0])
    ensures forall i :: 0 <= i < |s| - |r| ==> IsSpace(s[i])
  {
    if s != [] && IsSpace(s[0]) then TrimStart(s[1..]) else s
  }

  /** `str::trim_end`. */
  function TrimEnd(s: string): (r: string)
    ensures |r| <= |s| && r == s[..|r|]
    ensures r == [] || !IsSpace(r[|r| - 1])
    ensures forall i :: |r| <= i < |s| ==> IsSpace(s[i])
  {
    if s != [] && IsSpace(s[|s| - 1]) then TrimEnd(s[..|s| - 1]) else s
  }

  /** `str::trim`: both ends. */
  function Trim(s: string): (r: string)
    ensures |r| <= |s|
    ensures r == [] || (!IsSpace(r[0]) && !IsSpace(r[|r| - 1]))
  {
    TrimEnd(TrimStart(s))
  }

  predicate StartsWith(s: string, prefix: string) {
    |prefix| <= |s| && s[..|prefix|] == prefix
  }

  /** `str::trim_start_matches` with one character: every leading copy of `c` removed. */
  function TrimStartMatches(s: string, c: char): (r: string)
    ensures |r| <= |s| && r == s[|s| - |r|..]
    ensures r == [] || r[0] != c
    ensures forall i :: 0 <= i < |s| - |r| ==> s[i] == c
  {
    if s != [] && s[0] == c then TrimStartMatches(s[1..], c) else s
  }

  /** `str::trim_end_matches` with one character: every trailing copy of `c` removed. */
  function TrimEndMatches(s: string, c: char): (r: string)
    ensures |r| <= |s| && r == s[..|r|]
    ensures r == [] || r[|r| - 1] != c
    ensures forall i :: |r| <= i < |s| ==> s[i] == c
  {
    if s != [] && s[|s| - 1] == c then TrimEndMatches(s[..|s| - 1], c) else s
  }

  /** `str::strip_prefix`. */
  function StripPrefix(s: string, prefix: string): (r: Option<string>)
    ensures r.Some? <==> StartsWith(s, prefix)
    ensures r.Some? ==> prefix + r.value == s
  {
    if StartsWith(s, prefix) then Some(s[|prefix|..]) else None
  }

  /** `str::contains` with a string pattern. */
  predicate ContainsStr(s: string, pattern: string)
    decreases |s|
  {
    StartsWith(s, pattern) || (s != [] && ContainsStr(s[1..], pattern))
  }

  /** Index of the first occurrence of `c` in `s`. */
  function IndexOf(s: string, c: char): (i: nat)
    requires c in s
    ensures i < |s| && s[i] == c && c !in s[..i]
  {
    if s[0] == c then 0 else 1 + IndexOf(s[1..], c)
  }

  /** The inverse of `Split`: the pieces glued back with the separator between them. */
  function Join(parts: seq<string>, sep: char): string
    requires |parts| >= 1
  {
    if |parts| == 1 then parts[0] else parts[0] + [sep] + Join(parts[1..], sep)
  }

  /** `str::split` on one character: always at least one piece, possibly empty ones. */
  function Split(s: string, sep: char): (parts: seq<string>)
    ensures |parts| >= 1
    ensures forall i :: 0 <= i < |parts| ==> sep !in parts[i]
    ensures Join(parts, sep) == s
    decreases |s|
  {
    if sep !in s then [s]
    else
      var i := IndexOf(s, sep);
      var rest := Split(s[i + 1..], sep);
      assert s == s[..i] + [sep] + s[i + 1..];
      [s[..i]] + rest
  }

  /** A join starts with the first character of its first piece. */
  lemma JoinHead(parts: seq<string>, sep: char)
    requires |parts| >= 1 && parts[0] != []
    ensures Join(parts, sep) != [] && Join(parts, sep)[0] == parts[0][0]
  {
  }

  /** Splitting undoes joining when no piece holds the separator. */
  lemma {:induction false} SplitJoin(parts: seq<string>, sep: char)
    requires |parts| >= 1
    requires forall i :: 0 <= i < |parts| ==> sep !in parts[i]
    ensures Split(Join(parts, sep), sep) == parts
  {
    if |parts| > 1 {
      var p := parts[0];
      var rest := Join(parts[1..], sep);
      var s := p + [sep] + rest;
      IndexOfFirst(p, rest, sep);
      assert s[..|p|] == p;
      assert s[|p| + 1..] == rest;
      SplitJoin(parts[1..], sep);
      ConsTail(parts);
    }
  }

  /** The first separator of `p + [sep] + rest` is the one after `p` when `p` holds none. */
  lemma {:induction false} IndexOfFirst(p: string, rest: string, sep: char)
    requires sep !in p
    ensures IndexOf(p + [sep] + rest, sep) == |p|
  {
    if p != [] {
      assert (p + [sep] + rest)[1..] == p[1..] + [sep] + rest;
      IndexOfFirst(p[1..], rest, sep);
    }
  }

  /** The longest prefix of `s` holding no whitespace. */
  function Word(s: string): (w: string)
    ensures |w| <= |s| && w == s[..|w|]
    ensures forall i :: 0 <= i < |w| ==> !IsSpace(w[i])
    ensures |w| < |s| ==> IsSpace(s[|w|])
    ensures s != [] && !IsSpace(s[0]) ==> w != []
  {
    if s == [] || IsSpace(s[0]) then [] else [s[0]] + Word(s[1..])
  }

  /** The characters of `s` that are not whitespace, in order. */
  function NonSpace(s: string): string {
    if s == [] then [] else (if IsSpace(s[0]) then [] else [s[0]]) + NonSpace(s[1..])
  }

  function Concat(parts: seq<string>): string {
    if parts == [] then [] else parts[0] + Concat(parts[1..])
  }

  lemma {:induction false} NonSpaceAppend(a: string, b: string)
    ensures NonSpace(a + b) == NonSpace(a) + NonSpace(b)
  {
    if a != [] {
      assert (a + b)[1..] == a[1..] + b;
      NonSpaceAppend(a[1..], b);
    } else {
      assert a + b == b;
    }
  }

  lemma {:induction false} NonSpaceOfSpaces(s: string)
    requires forall i :: 0 <= i < |s| ==> IsSpace(s[i])
    ensures NonSpace(s) == []
  {
    if s != [] {
      NonSpaceOfSpaces(s[1..]);
    }
  }

  lemma {:induction false} NonSpaceOfWord(s: string)
    requires forall i :: 0 <= i < |s| ==> !IsSpace(s[i])
    ensures NonSpace(s) == s
  {
    if s != [] {
      NonSpaceOfWord(s[1..]);
    }
  }

  /** A non-empty run of non-whitespace characters. */
  predicate IsWord(t: string) {
    t != [] && forall i :: 0 <= i < |t| ==> !IsSpace(t[i])
  }

  /** `str::split_whitespace`: the non-empty maximal runs of non-whitespace, in order. */
  function SplitWhitespace(s: string): seq<string>
    decreases |s|
  {
    var t := TrimStart(s);
    if t == [] then []
    else
      var w := Word(t);
      [w] + SplitWhitespace(t[|w|..])
  }

  /** Every token of `SplitWhitespace` is a non-empty run of non-whitespace. */
  lemma {:induction false} SplitWhitespaceWords(s: string)
    ensures forall k :: 0 <= k < |SplitWhitespace(s)| ==> IsWord(SplitWhitespace(s)[k])
    decreases |s|
  {
    var t := TrimStart(s);
    if t != [] {
      var w := Word(t);
      var rest := t[|w|..];
      SplitWhitespaceWords(rest);
      var tokens := SplitWhitespace(s);
      assert tokens == [w] + SplitWhitespace(rest);
      forall k | 0 <= k < |tokens|
        ensures IsWord(tokens[k])
      {
        if k > 0 {
          assert tokens[k] == SplitWhitespace(rest)[k - 1];
        }
      }
    }
  }

  /** No character other than whitespace is lost by `SplitWhitespace`. */
  lemma {:induction false} SplitWhitespaceKeepsText(s: string)
    ensures Concat(SplitWhitespace(s)) == NonSpace(s)
    decreases |s|
  {
    var t := TrimStart(s);
    NonSpaceOfTrimStart(s);
    if t != [] {
      var w := Word(t);
      var rest := t[|w|..];
      assert SplitWhitespace(s) == [w] + SplitWhitespace(rest);
      SplitWhitespaceKeepsText(rest);
      ConcatCons(w, SplitWhitespace(rest));
      NonSpaceOfWordSplit(t);
    }
  }

  lemma NonSpaceOfTrimStart(s: string)
    ensures NonSpace(TrimStart(s)) == NonSpace(s)
  {
    var t := TrimStart(s);
    var lead := s[..|s| - |t|];
    assert s == lead + t;
    NonSpaceOfSpaces(lead);
    NonSpaceAppend(lead, t);
  }

  lemma ConcatCons(w: string, rest: seq<string>)
    ensures Concat([w] + rest) == w + Concat(rest)
  {
    assert ([w] + rest)[1..] == rest;
  }

  lemma NonSpaceOfWordSplit(t: string)
    ensures NonSpace(t) == Word(t) + NonSpace(t[|Word(t)|..])
  {
    var w := Word(t);
    var rest := t[|w|..];
    assert t == w + rest;
    NonSpaceAppend(w, rest);
    NonSpaceOfWord(w);
  }

  /** Whitespace-free tokens glued with single spaces; no tokens give the empty string. */
  function Unwords(tokens: seq<string>): string {
    if tokens == [] then [] else Join(tokens, ' ')
  }

  lemma TrimStartOfWordStart(s: string)
    requires s == [] || !IsSpace(s[0])
    ensures TrimStart(s) == s
  {
  }

  lemma {:induction false} WordOfUnwords(tokens: seq<string>)
    requires |tokens| >= 1 && IsWord(tokens[0])
    requires |tokens| > 1 ==> IsWord(tokens[1])
    ensures Word(Unwords(tokens)) == tokens[0]
    ensures Unwords(tokens)[|tokens[0]|..] == if |tokens| == 1 then [] else [' '] + Unwords(tokens[1..])
  {
    var s := Unwords(tokens);
    var t := tokens[0];
    var rest: string := if |tokens| == 1 then [] else [' '] + Unwords(tokens[1..]);
    assert s == t + rest;
    if |tokens| > 1 {
      assert tokens[1..][0] == tokens[1];
      assert rest[0] == ' ';
    }
    WordOfPrefix(t, rest);
  }

  lemma {:induction false} WordOfPrefix(w: string, rest: string)
    requires forall i :: 0 <= i < |w| ==> !IsSpace(w[i])
    requires rest == [] || IsSpace(rest[0])
    ensures Word(w + rest) == w
  {
    if w != [] {
      assert (w + rest)[1..] == w[1..] + rest;
      WordOfPrefix(w[1..], rest);
      assert w == [w[0]] + w[1..];
    } else {
      assert w + rest == rest;
    }
  }

  /** A string that starts with a non-space splits into its first word and the rest. */
  lemma SplitWhitespaceStep(s: string)
    requires s != [] && !IsSpace(s[0])
    ensures SplitWhitespace(s) == [Word(s)] + SplitWhitespace(s[|Word(s)|..])
  {
    TrimStartOfWordStart(s);
  }

  /** A leading space changes nothing. */
  lemma SplitWhitespaceSpaceCons(u: string)
    ensures SplitWhitespace([' '] + u) == SplitWhitespace(u)
  {
    var v := [' '] + u;
    assert v[0] == ' ' && v[1..] == u;
    assert IsSpace(v[0]);
    assert TrimStart(v) == TrimStart(u);
  }

  /** The first token of `Unwords(tokens)` is `tokens[0]`. */
  lemma SplitWhitespaceUnwordsHead(tokens: seq<string>)
    requires |tokens| >= 1 && IsWord(tokens[0])
    requires |tokens| > 1 ==> IsWord(tokens[1])
    ensures SplitWhitespace(Unwords(tokens)) ==
      [tokens[0]] + SplitWhitespace(Unwords(tokens)[|tokens[0]|..])
  {
    var s := Unwords(tokens);
    WordOfUnwords(tokens);
    assert s == tokens[0] + s[|tokens[0]|..];
    SplitWhitespaceStep(s);
  }

  /** `split_whitespace` undoes `Unwords`: the tokens come back as they were. */
  lemma {:induction false} SplitWhitespaceUnwords(tokens: seq<string>)
    requires forall k :: 0 <= k < |tokens| ==> IsWord(tokens[k])
    ensures SplitWhitespace(Unwords(tokens)) == tokens
  {
    if tokens != [] {
      var t := tokens[0];
      var rest := Unwords(tokens)[|t|..];
      assert |tokens| > 1 ==> IsWord(tokens[1]);
      SplitWhitespaceUnwordsHead(tokens);
      WordOfUnwords(tokens);
      if |tokens| > 1 {
        var tail := tokens[1..];
        assert forall k :: 0 <= k < |tail| ==> IsWord(tail[k]) by {
          forall k | 0 <= k < |tail| ensures IsWord(tail[k]) {
            assert tail[k] == tokens[k + 1];
          }
        }
        SplitWhitespaceSpaceCons(Unwords(tail));
        SplitWhitespaceUnwords(tail);
        assert rest == [' '] + Unwords(tail);
        assert SplitWhitespace(rest) == tail;
      } else {
        assert rest == [];
      }
      ConsTail(tokens);
    }
  }

  /** `trim` leaves a string alone when neither end is whitespace. */
  lemma TrimIdentity(s: string)
    requires s == [] || (!IsSpace(s[0]) && !IsSpace(s[|s| - 1]))
    ensures Trim(s) == s
  {
    TrimStartOfWordStart(s);
    if s != [] {
      assert TrimEnd(s) == s;
    }
  }

  predicate IsDigit(c: char) {
    '0' <= c <= '9'
  }

  /** `char::is_ascii_hexdigit`. */
  predicate IsHexDigit(c: char) {
    IsDigit(c) || ('a' <= c <= 'f') || ('A' <= c <= 'F')
  }

  predicate AllDigits(s: string) {
    forall i :: 0 <= i < |s| ==> IsDigit(s[i])
  }

  function DigitValue(c: char): nat
    requires IsDigit(c)
  {
    (c as int) - ('0' as int)
  }

  function DecimalValue(s: string): nat
    requires AllDigits(s)
  {
    if s == [] then 0 else 10 * DecimalValue(s[..|s| - 1]) + DigitValue(s[|s| - 1])
  }

  const U32_MAX: nat := 0xFFFF_FFFF
  const U64_MAX: nat := 0xFFFF_FFFF_FFFF_FFFF

  /**
   * `str::parse` for an unsigned integer type whose largest value is `max`: an optional
   * `+`, then one or more decimal digits, and a value that fits; anything else is an error.
   */
  function ParseUnsigned(s: string, max: nat): (r: Option<nat>)
    ensures r.Some? ==> r.value <= max
    ensures r.Some? <==>
      var digits := if s != [] && s[0] == '+' then s[1..] else s;
      digits != [] && AllDigits(digits) && DecimalValue(digits) <= max
  {
    var digits := if s != [] && s[0] == '+' then s[1..] else s;
    if digits != [] && AllDigits(digits) && DecimalValue(digits) <= max
    then Some(DecimalValue(digits))
    else None
  }

  /** The decimal numeral of `n`, as Rust's `Display` writes it. */
  function ToDecimal(n: nat): (s: string)
    ensures s != [] && AllDigits(s)
  {
    var d := ['0' + ((n % 10) as char)];
    if n < 10 then d else ToDecimal(n / 10) + d
  }

  lemma {:induction false} DecimalValueOfToDecimal(n: nat)
    ensures DecimalValue(ToDecimal(n)) == n
  {
    var s := ToDecimal(n);
    var d := ['0' + ((n % 10) as char)];
    if n < 10 {
      assert s == d && s[..|s| - 1] == [];
    } else {
      DecimalValueOfToDecimal(n / 10);
      assert s[..|s| - 1] == ToDecimal(n / 10);
    }
  }

  /** Round trip: every value that fits parses back from its own numeral. */
  lemma ParseToDecimal(n: nat, max: nat)
    requires n <= max
    ensures ParseUnsigned(ToDecimal(n), max) == Some(n)
  {
    DecimalValueOfToDecimal(n);
  }

  /** The UTF-8 encoding of one Unicode scalar value. */
  function Utf8Char(c: char): (bytes: seq<nat>)
    ensures 1 <= |bytes| <= 4
    ensures forall i :: 0 <= i < |bytes| ==> bytes[i] < 256
    ensures |bytes| == 1 <==> (c as int) < 0x80
    ensures (c as int) < 0x80 ==> bytes == [c as int]
  {
    var cp := c as int;
    if cp < 0x80 then [cp]
    else if cp < 0x800 then [0xC0 + cp / 0x40, 0x80 + cp % 0x40]
    else if cp < 0x1_0000 then [0xE0 + cp / 0x1000, 0x80 + (cp / 0x40) % 0x40, 0x80 + cp % 0x40]
    else [0xF0 + cp / 0x4_0000, 0x80 + (cp / 0x1000) % 0x40, 0x80 + (cp / 0x40) % 0x40, 0x80 + cp % 0x40]
  }

  /** `str::bytes`: the UTF-8 encoding of a whole string. */
  function Utf8(s: string): (bytes: seq<nat>)
    ensures |bytes| >= |s|
    ensures forall i :: 0 <= i < |bytes| ==> bytes[i] < 256
  {
    if s == [] then [] else Utf8Char(s[0]) + Utf8(s[1..])
  }
}
