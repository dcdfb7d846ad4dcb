/** The JavaScript built-ins on strings and numbers that the reconciliation
    code leans on, written out: printing an integer (`${n}`), lower-casing
    (`toLowerCase`), substring search (`includes`), `split` on one
    character, `replace` of the first occurrence of a character, `trim`,
    and the relational comparison `<` on strings. Each comes with the
    independent description or inverse it is checked against. */
module JsText {
  import opened Wrappers

  /** JavaScript truthiness of a string that may be undefined: defined and
      not empty. */
  predicate Truthy(s: Option<string>) {
    s.Some? && s.value != []
  }

  // ---------------------------------------------------------------------
  // Decimal digits and number printing

  predicate IsDigit(c: char) { '0' <= c <= '9' }

  predicate AllDigits(s: string) { forall i :: 0 <= i < |s| ==> IsDigit(s[i]) }

  function DigitChar(d: nat): (c: char)
    requires d < 10
    ensures IsDigit(c) && c as int - '0' as int == d
  {
    ('0' as int + d) as char
  }

  /** The decimal text of a natural number, as `String(n)` prints it
      (no sign, no leading zeros). */
  function NatText(n: nat): (s: string)
    ensures |s| > 0 && AllDigits(s)
    ensures |s| > 1 ==> s[0] != '0'
    decreases n
  {
    if n < 10 then [DigitChar(n)] else NatText(n / 10) + [DigitChar(n % 10)]
  }

  /** The decimal text of an integer, as JavaScript prints an integral
      number below 10^21 (a leading `-` for negative values). */
  function IntText(n: int): (s: string)
    ensures |s| > 0
  {
    if n < 0 then "-" + NatText(-n) else NatText(n)
  }

  /** A printed integer is a sign and digits: it holds no separator such
      as ':'. */
  lemma IntTextSignAndDigits(n: int)
    ensures forall i :: 0 <= i < |IntText(n)| ==> IntText(n)[i] == '-' || IsDigit(IntText(n)[i])
    ensures ':' !in IntText(n)
  {
  }

  /** The value of a string of decimal digits. */
  function DigitsValue(s: string): nat
    requires AllDigits(s)
    decreases |s|
  {
    if s == [] then 0
    else DigitsValue(s[..|s| - 1]) * 10 + (s[|s| - 1] as int - '0' as int)
  }

  /** Reads a non-empty string of decimal digits; the inverse of NatText. */
  function ParseNat(s: string): Option<nat> {
    if s != [] && AllDigits(s) then Some(DigitsValue(s)) else None
  }

  /** Reads an optionally negative decimal integer; the inverse of IntText. */
  function ParseInt(s: string): Option<int> {
    if s != [] && s[0] == '-' then
      match ParseNat(s[1..])
      case Some(v) => Some(0 - v as int)
      case None => None
    else ParseNat(s)
  }

  lemma {:induction false} DigitsValueOfNatText(n: nat)
    ensures DigitsValue(NatText(n)) == n
    decreases n
  {
    if n >= 10 {
      var s := NatText(n / 10);
      var t := NatText(n);
      assert t == s + [DigitChar(n % 10)];
      assert t[..|t| - 1] == s;
      DigitsValueOfNatText(n / 10);
    }
  }

  lemma ParseNatText(n: nat)
    ensures ParseNat(NatText(n)) == Some(n)
  {
    DigitsValueOfNatText(n);
  }

  lemma ParseIntText(n: int)
    ensures ParseInt(IntText(n)) == Some(n)
  {
    var s := IntText(n);
    if n < 0 {
      assert s[0] == '-' && s[1..] == NatText(-n);
      ParseNatText(-n);
    } else {
      assert s == NatText(n) && IsDigit(s[0]);
      ParseNatText(n);
    }
  }

  /** Different numbers print differently. */
  lemma NatTextInjective(a: nat, b: nat)
    requires NatText(a) == NatText(b)
    ensures a == b
  {
    ParseNatText(a);
    ParseNatText(b);
  }

  // ---------------------------------------------------------------------
  // toLowerCase

  /** Lower-casing of one character: ASCII `A`..`Z` and the Latin-1
      capitals `À`..`Þ` (which include `Æ`, `Ø` and `Å`, but not the
      multiplication sign `×`) map to their small letters; every other
      character is left alone. */
  function LowerChar(c: char): char {
    if 'A' <= c <= 'Z' || ('\U{C0}' <= c <= '\U{DE}' && c != '\U{D7}') then
      (c as int + 32) as char
    else c
  }

  function ToLower(s: string): (r: string)
    ensures |r| == |s|
  {
    seq(|s|, i requires 0 <= i < |s| => LowerChar(s[i]))
  }

  /** Lower-casing twice is lower-casing once. */
  lemma ToLowerIdempotent(s: string)
    ensures ToLower(ToLower(s)) == ToLower(s)
  {
    forall i | 0 <= i < |s|
      ensures ToLower(ToLower(s))[i] == ToLower(s)[i]
    {
      var c := s[i];
      assert LowerChar(LowerChar(c)) == LowerChar(c);
    }
  }

  // ---------------------------------------------------------------------
  // includes

  /** `hay.includes(needle)`: the needle is a prefix of some suffix of hay. */
  predicate Includes(hay: string, needle: string)
    decreases |hay|
  {
    needle <= hay || (hay != [] && Includes(hay[1..], needle))
  }

  /** The needle occurs in hay starting at index k. */
  ghost predicate OccursAt(hay: string, needle: string, k: nat) {
    k + |needle| <= |hay| && hay[k..k + |needle|] == needle
  }

  lemma {:induction false} IncludesIff(hay: string, needle: string)
    ensures Includes(hay, needle) <==> exists k: nat :: OccursAt(hay, needle, k)
    decreases |hay|
  {
    if needle <= hay {
      assert OccursAt(hay, needle, 0);
    } else if hay != [] {
      IncludesIff(hay[1..], needle);
      forall k: nat | OccursAt(hay, needle, k)
        ensures k >= 1 && OccursAt(hay[1..], needle, k - 1)
      {
        if k >= 1 {
          assert hay[1..][k - 1..k - 1 + |needle|] == hay[k..k + |needle|];
        }
      }
      if Includes(hay[1..], needle) {
        var k: nat :| OccursAt(hay[1..], needle, k);
        assert hay[k + 1..k + 1 + |needle|] == hay[1..][k..k + |needle|];
        assert OccursAt(hay, needle, k + 1);
      }
    } else {
      assert forall k: nat :: !OccursAt(hay, needle, k);
    }
  }

  // ---------------------------------------------------------------------
  // split on one character, and its inverse join

  /** `s.split(sep)` for a one-character separator: the maximal
      separator-free pieces between separators, at least one of them
      (`"".split(":")` is `[""]`, `"a::b".split(":")` is `["a", "", "b"]`). */
  function Split(s: string, sep: char): (parts: seq<string>)
    ensures |parts| >= 1
    decreases |s|
  {
    if s == [] then [[]]
    else
      var rest := Split(s[1..], sep);
      if s[0] == sep then [[]] + rest
      else [[s[0]] + rest[0]] + rest[1..]
  }

  /** `parts.join(sep)`. */
  function Join(parts: seq<string>, sep: char): string
    requires |parts| >= 1
    decreases |parts|
  {
    if |parts| == 1 then parts[0] else parts[0] + [sep] + Join(parts[1..], sep)
  }

  /** Joining the pieces back with the separator gives the original text. */
  lemma {:induction false} JoinSplit(s: string, sep: char)
    ensures Join(Split(s, sep), sep) == s
    decreases |s|
  {
    if s != [] {
      var rest := Split(s[1..], sep);
      JoinSplit(s[1..], sep);
      var parts := Split(s, sep);
      assert [s[0]] + s[1..] == s;
      if s[0] == sep {
        assert parts == [[]] + rest && parts[1..] == rest;
        assert Join(parts, sep) == [] + [sep] + Join(rest, sep);
      } else if |rest| > 1 {
        assert parts == [[s[0]] + rest[0]] + rest[1..] && parts[1..] == rest[1..];
        assert Join(rest, sep) == rest[0] + [sep] + Join(rest[1..], sep);
        assert Join(parts, sep) == ([s[0]] + rest[0]) + [sep] + Join(rest[1..], sep);
      } else {
        assert parts == [[s[0]] + rest[0]];
        assert Join(rest, sep) == rest[0];
      }
    }
  }

  /** No piece contains the separator. */
  lemma {:induction false} SplitPartsSeparatorFree(s: string, sep: char)
    ensures forall i :: 0 <= i < |Split(s, sep)| ==> sep !in Split(s, sep)[i]
    decreases |s|
  {
    if s != [] {
      SplitPartsSeparatorFree(s[1..], sep);
    }
  }

  /** A separator-free text splits into itself. */
  lemma {:induction false} SplitSeparatorFree(s: string, sep: char)
    requires sep !in s
    ensures Split(s, sep) == [s]
    decreases |s|
  {
    if s != [] {
      SplitSeparatorFree(s[1..], sep);
      assert [s[0]] + s[1..] == s;
    }
  }

  /** Splitting a separator-free head followed by a separator. */
  lemma {:induction false} SplitAfterHead(a: string, sep: char, b: string)
    requires sep !in a
    ensures Split(a + [sep] + b, sep) == [a] + Split(b, sep)
    decreases |a|
  {
    var s := a + [sep] + b;
    if a == [] {
      assert s[1..] == b;
    } else {
      assert s[1..] == a[1..] + [sep] + b;
      SplitAfterHead(a[1..], sep, b);
      assert [a[0]] + a[1..] == a;
    }
  }

  /** The first two pieces of a split hold no separator, and the text
      starts with them joined by one. */
  lemma SplitFirstTwoShape(s: string, sep: char)
    requires |Split(s, sep)| >= 2
    ensures var parts := Split(s, sep);
            && sep !in parts[0] && sep !in parts[1]
            && (s == parts[0] + [sep] + parts[1] || parts[0] + [sep] + parts[1] + [sep] <= s)
  {
    var parts := Split(s, sep);
    var u, p := parts[0], parts[1];
    assert sep !in u && sep !in p by { SplitPartsSeparatorFree(s, sep); }
    assert s == u + [sep] + Join(parts[1..], sep) by { JoinSplit(s, sep); }
    if |parts| > 2 {
      assert Join(parts[1..], sep) == p + [sep] + Join(parts[2..], sep);
      assert s == u + [sep] + p + [sep] + Join(parts[2..], sep);
    }
  }

  /** A text made of two separator-free pieces joined by a separator,
      alone or followed by another separator, splits into those pieces
      first. */
  lemma SplitStartsWith(s: string, sep: char, u: string, p: string)
    requires sep !in u && sep !in p && (s == u + [sep] + p || u + [sep] + p + [sep] <= s)
    ensures var parts := Split(s, sep); |parts| >= 2 && parts[0] == u && parts[1] == p
  {
    if s == u + [sep] + p {
      SplitAfterHead(u, sep, p);
      SplitSeparatorFree(p, sep);
    } else {
      var w := s[|u + [sep] + p + [sep]|..];
      assert s == u + [sep] + (p + [sep] + w);
      SplitAfterHead(u, sep, p + [sep] + w);
      SplitAfterHead(p, sep, w);
    }
  }

  /** The first two pieces of a split are `u` and `p` exactly when neither
      holds the separator and the text is `u sep p`, possibly followed by
      another separator and anything at all. */
  lemma SplitFirstTwo(s: string, sep: char, u: string, p: string)
    ensures (var parts := Split(s, sep); |parts| >= 2 && parts[0] == u && parts[1] == p)
            <==>
            (sep !in u && sep !in p && (s == u + [sep] + p || u + [sep] + p + [sep] <= s))
  {
    if |Split(s, sep)| >= 2 {
      SplitFirstTwoShape(s, sep);
    }
    if sep !in u && sep !in p && (s == u + [sep] + p || u + [sep] + p + [sep] <= s) {
      SplitStartsWith(s, sep, u, p);
    }
  }

  // ---------------------------------------------------------------------
  // replace(from, to) with a one-character pattern: only the first match

  function ReplaceFirst(s: string, from: char, to: char): (r: string)
    ensures |r| == |s|
    decreases |s|
  {
    if s == [] then []
    else if s[0] == from then [to] + s[1..]
    else [s[0]] + ReplaceFirst(s[1..], from, to)
  }

  /** A text without the pattern is left alone. */
  lemma {:induction false} ReplaceFirstAbsent(s: string, from: char, to: char)
    requires from !in s
    ensures ReplaceFirst(s, from, to) == s
    decreases |s|
  {
    if s != [] {
      ReplaceFirstAbsent(s[1..], from, to);
      assert [s[0]] + s[1..] == s;
    }
  }

  /** Only the first occurrence is replaced: whatever follows it, later
      occurrences included, is left alone. */
  lemma {:induction false} ReplaceFirstAt(u: string, from: char, to: char, v: string)
    requires from !in u
    ensures ReplaceFirst(u + [from] + v, from, to) == u + [to] + v
    decreases |u|
  {
    var s := u + [from] + v;
    if u == [] {
      assert s[1..] == v;
    } else {
      assert s[0] == u[0] && s[1..] == u[1..] + [from] + v;
      ReplaceFirstAt(u[1..], from, to, v);
      assert [u[0]] + (u[1..] + [to] + v) == u + [to] + v;
    }
  }

  // ---------------------------------------------------------------------
  // Dropping runs at either end (the regexes /^"+/ and /"+$/, and trim)

  /** The longest suffix of s that does not start with a character
      satisfying p. */
  function DropLeading(s: string, p: char -> bool): string
    decreases |s|
  {
    if s != [] && p(s[0]) then DropLeading(s[1..], p) else s
  }

  /** DropLeading keeps a suffix, everything it drops satisfies p, and
      what it keeps does not start with a p-character. */
  lemma {:induction false} DropLeadingSpec(s: string, p: char -> bool)
    ensures var r := DropLeading(s, p);
            && |r| <= |s| && r == s[|s| - |r|..]
            && (forall i :: 0 <= i < |s| - |r| ==> p(s[i]))
            && (r != [] ==> !p(r[0]))
    decreases |s|
  {
    if s != [] && p(s[0]) {
      DropLeadingSpec(s[1..], p);
      var r := DropLeading(s, p);
      assert s[1..][|s| - 1 - |r|..] == s[|s| - |r|..];
      forall i | 1 <= i < |s| - |r| ensures p(s[i]) {
        assert s[1..][i - 1] == s[i];
      }
    }
  }

  /** The longest prefix of s that does not end with a character
      satisfying p. */
  function DropTrailing(s: string, p: char -> bool): string
    decreases |s|
  {
    if s != [] && p(s[|s| - 1]) then DropTrailing(s[..|s| - 1], p) else s
  }

  /** DropTrailing keeps a prefix, everything it drops satisfies p, and
      what it keeps does not end with a p-character. */
  lemma {:induction false} DropTrailingSpec(s: string, p: char -> bool)
    ensures var r := DropTrailing(s, p);
            && |r| <= |s| && r == s[..|r|]
            && (forall i :: |r| <= i < |s| ==> p(s[i]))
            && (r != [] ==> !p(r[|r| - 1]))
    decreases |s|
  {
    if s != [] && p(s[|s| - 1]) {
      var init := s[..|s| - 1];
      DropTrailingSpec(init, p);
      var r := DropTrailing(s, p);
      assert init[..|r|] == s[..|r|];
      forall i | |r| <= i < |s| - 1 ensures p(s[i]) {
        assert init[i] == s[i];
      }
    }
  }

  /** Dropping a leading run of p-characters that is followed by a
      character outside p (or by nothing) leaves exactly what follows. */
  lemma {:induction false} DropLeadingRun(run: string, rest: string, p: char -> bool)
    requires forall i :: 0 <= i < |run| ==> p(run[i])
    requires rest != [] ==> !p(rest[0])
    ensures DropLeading(run + rest, p) == rest
    decreases |run|
  {
    if run != [] {
      assert (run + rest)[1..] == run[1..] + rest;
      DropLeadingRun(run[1..], rest, p);
    }
  }

  /** The mirror image: a trailing run of p-characters after a character
      outside p (or after nothing) is dropped entirely. */
  lemma {:induction false} DropTrailingRun(rest: string, run: string, p: char -> bool)
    requires forall i :: 0 <= i < |run| ==> p(run[i])
    requires rest != [] ==> !p(rest[|rest| - 1])
    ensures DropTrailing(rest + run, p) == rest
    decreases |run|
  {
    if run != [] {
      var init := run[..|run| - 1];
      assert (rest + run)[..|rest + run| - 1] == rest + init;
      DropTrailingRun(rest, init, p);
    }
  }

  /** The characters `String.prototype.trim` removes: white space and line
      terminators, including the no-break space and the byte-order mark. */
  predicate IsJsSpace(c: char) {
    c == ' ' || c == '\t' || c == '\n' || c == '\U{B}' || c == '\U{C}' || c == '\r'
    || c == '\U{A0}' || c == '\U{1680}' || ('\U{2000}' <= c <= '\U{200A}')
    || c == '\U{2028}' || c == '\U{2029}' || c == '\U{202F}' || c == '\U{205F}'
    || c == '\U{3000}' || c == '\U{FEFF}'
  }

  function Trim(s: string): string {
    DropTrailing(DropLeading(s, IsJsSpace), IsJsSpace)
  }

  // ---------------------------------------------------------------------
  // The relational comparison a < b on strings

  /** `a < b` on strings: lexicographic by character code, a proper prefix
      being smaller. */
  predicate StrLess(a: string, b: string)
    decreases |a|
  {
    if a == [] then b != []
    else if b == [] then false
    else if a[0] != b[0] then a[0] < b[0]
    else StrLess(a[1..], b[1..])
  }

  lemma {:induction false} StrLessIrreflexive(a: string)
    ensures !StrLess(a, a)
    decreases |a|
  {
    if a != [] {
      StrLessIrreflexive(a[1..]);
    }
  }

  lemma {:induction false} StrLessAsymmetric(a: string, b: string)
    requires StrLess(a, b)
    ensures !StrLess(b, a)
    decreases |a|
  {
    if a != [] && b != [] && a[0] == b[0] {
      StrLessAsymmetric(a[1..], b[1..]);
    }
  }

  lemma {:induction false} StrLessTotal(a: string, b: string)
    requires a != b
    ensures StrLess(a, b) || StrLess(b, a)
    decreases |a|
  {
    if a != [] && b != [] && a[0] == b[0] {
      assert a == [a[0]] + a[1..] && b == [b[0]] + b[1..];
      StrLessTotal(a[1..], b[1..]);
    }
  }

  lemma {:induction false} StrLessTransitive(a: string, b: string, c: string)
    requires StrLess(a, b) && StrLess(b, c)
    ensures StrLess(a, c)
    decreases |a|
  {
    if a != [] && b != [] && c != [] && a[0] == b[0] && b[0] == c[0] {
      StrLessTransitive(a[1..], b[1..], c[1..]);
    }
  }
}
