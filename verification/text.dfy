/** Text operations of Rust's standard library that the installer relies
    on: integer formatting and parsing, `join`, `to_uppercase`, `trim`,
    `split` and `contains`, restricted to what the model needs. */
module Text {
  import opened Ints
  import opened Wrappers

  /** Digit characters as Rust's `{}` and `{:x}` formatters print them. */
  const DIGITS: string := "0123456789abcdef"

  /** Value of a digit character in bases up to 16, letters in either case. */
  function DigitValue(c: char): Option<nat> {
    if '0' <= c <= '9' then Some(c as int - '0' as int)
    else if 'a' <= c <= 'f' then Some(c as int - 'a' as int + 10)
    else if 'A' <= c <= 'F' then Some(c as int - 'A' as int + 10)
    else None
  }

  lemma DigitsAreDigits(k: nat)
    requires k < 16
    ensures DigitValue(DIGITS[k]) == Some(k)
  {
    if k < 10 {
    } else {
    }
  }

  /** `n` written in `base`, most significant digit first, with no leading
      zero (zero itself is "0"): Rust's `{}` for base 10 and `{:x}` for
      base 16. */
  function ToBase(n: nat, base: nat): (s: string)
    requires 2 <= base <= 16
    ensures 0 < |s|
    decreases n
  {
    if n < base then [DIGITS[n]]
    else
      DivMod(n, base);
      ToBase(n / base, base) + [DIGITS[n % base]]
  }

  lemma DivMod(n: nat, base: nat)
    requires 2 <= base <= n
    ensures 0 < n / base < n && n % base < base
    ensures (n / base) * base + n % base == n
  {
  }

  /** The number a non-empty string of base-`base` digits denotes; `None`
      when it is empty or holds any other character. */
  function FromBase(s: string, base: nat): Option<nat>
    requires 2 <= base <= 16
    decreases |s|
  {
    if |s| == 0 then None
    else
      var d := DigitValue(s[|s| - 1]);
      if d.None? || d.value >= base then None
      else if |s| == 1 then Some(d.value)
      else match FromBase(s[..|s| - 1], base)
        case None => None
        case Some(v) => Some(v * base + d.value)
  }

  /** Reading back what `ToBase` writes gives the number again. */
  lemma {:induction false} FromBaseToBase(n: nat, base: nat)
    requires 2 <= base <= 16
    ensures FromBase(ToBase(n, base), base) == Some(n)
    decreases n
  {
    var s := ToBase(n, base);
    if n < base {
      DigitsAreDigits(n);
    } else {
      DivMod(n, base);
      var q, r := n / base, n % base;
      FromBaseToBase(q, base);
      DigitsAreDigits(r);
      var prefix := ToBase(q, base);
      assert s == prefix + [DIGITS[r]];
      assert s[..|s| - 1] == prefix;
      assert DigitValue(s[|s| - 1]) == Some(r);
    }
  }

  /** A string `FromBase` accepts consists of digits only. */
  lemma {:induction false} FromBaseDigits(s: string, base: nat, i: nat)
    requires 2 <= base <= 16
    requires FromBase(s, base).Some? && i < |s|
    ensures DigitValue(s[i]).Some?
    decreases |s|
  {
    if i < |s| - 1 {
      FromBaseDigits(s[..|s| - 1], base, i);
    }
  }

  /** Rust's `Display` for an unsigned integer. */
  function Decimal(n: nat): string {
    ToBase(n, 10)
  }

  /** Rust's `str::parse::<u32>`: an optional leading `+`, then at least
      one ASCII digit, with a value that fits in 32 bits. */
  function ParseU32(s: string): Option<u32> {
    var digits := if 0 < |s| && s[0] == '+' then s[1..] else s;
    match FromBase(digits, 10)
    case None => None
    case Some(v) => if v <= U32_MAX then Some(v as u32) else None
  }

  /** Formatting a `u32` in decimal and parsing it back is the identity. */
  lemma {:induction false} ParseDecimal(n: u32)
    ensures ParseU32(Decimal(n)) == Some(n)
  {
    FromBaseToBase(n, 10);
    FromBaseDigits(Decimal(n), 10, 0);
  }

  /** Rust's `[String]::join`. */
  function Join(parts: seq<string>, sep: string): string {
    if |parts| == 0 then ""
    else if |parts| == 1 then parts[0]
    else parts[0] + sep + Join(parts[1..], sep)
  }

  /** Rust's `char::to_uppercase` on ASCII letters; every other character
      is left as it is. */
  function UpperChar(c: char): char {
    if 'a' <= c <= 'z' then (c as int - 32) as char else c
  }

  /** `str::to_uppercase`, as far as ASCII goes. */
  function Upper(s: string): string {
    seq(|s|, i requires 0 <= i < |s| => UpperChar(s[i]))
  }

  /** `sub` occurs in `s` starting at index `i`. */
  predicate IsAt(s: string, sub: string, i: int) {
    0 <= i <= |s| - |sub| && s[i..i + |sub|] == sub
  }

  /** `str::contains`: `sub` occurs somewhere in `s`. */
  predicate Contains(s: string, sub: string) {
    exists i | 0 <= i <= |s| - |sub| :: IsAt(s, sub, i)
  }

  /** `char::is_whitespace`: the Unicode White_Space property. */
  predicate IsWhitespace(c: char) {
    || ('\t' <= c <= '\r')
    || c == ' '
    || c == '\U{85}'
    || c == '\U{A0}'
    || c == '\U{1680}'
    || ('\U{2000}' <= c <= '\U{200A}')
    || c == '\U{2028}'
    || c == '\U{2029}'
    || c == '\U{202F}'
    || c == '\U{205F}'
    || c == '\U{3000}'
  }

  /** `char::is_control`: the Unicode general category Cc. */
  predicate IsControl(c: char) {
    c <= '\U{1F}' || ('\U{7F}' <= c <= '\U{9F}')
  }

  /** `str::trim_start`: what remains after the longest all-whitespace
      prefix. */
  function TrimStart(s: string): (t: string)
    ensures |t| <= |s| && t == s[|s| - |t|..]
    ensures forall j | 0 <= j < |s| - |t| :: IsWhitespace(s[j])
    ensures 0 < |t| ==> !IsWhitespace(t[0])
    decreases |s|
  {
    if 0 < |s| && IsWhitespace(s[0]) then TrimStart(s[1..]) else s
  }

  /** `str::trim_end`: what remains before the longest all-whitespace
      suffix. */
  function TrimEnd(s: string): (t: string)
    ensures |t| <= |s| && t == s[..|t|]
    ensures forall j | |t| <= j < |s| :: IsWhitespace(s[j])
    ensures 0 < |t| ==> !IsWhitespace(t[|t| - 1])
    decreases |s|
  {
    if 0 < |s| && IsWhitespace(s[|s| - 1]) then TrimEnd(s[..|s| - 1]) else s
  }

  /** `str::trim`: leading and trailing whitespace removed. */
  function Trim(s: string): string {
    TrimEnd(TrimStart(s))
  }

  /** `str::split` with a character predicate: the pieces between
      separators, empty pieces included ("" splits into [""]). */
  function SplitBy(s: string, sep: char -> bool): (pieces: seq<string>)
    ensures 0 < |pieces|
    decreases |s|
  {
    if |s| == 0 then [""]
    else
      var rest := SplitBy(s[1..], sep);
      if sep(s[0]) then [""] + rest else [[s[0]] + rest[0]] + rest[1..]
  }

  /** `filter(|s| s.len() > 0)`. */
  function NonEmpty(xs: seq<string>): seq<string> {
    if |xs| == 0 then []
    else if xs[0] == "" then NonEmpty(xs[1..])
    else [xs[0]] + NonEmpty(xs[1..])
  }

  /** No character of `s` is a separator. */
  predicate NoSeparator(s: string, sep: char -> bool) {
    forall i | 0 <= i < |s| :: !sep(s[i])
  }

  /** A separator-free word at the front of the text becomes (the start of)
      the first piece. */
  lemma {:induction false} SplitByWord(w: string, tail: string, sep: char -> bool)
    requires NoSeparator(w, sep)
    ensures var t := SplitBy(tail, sep);
      SplitBy(w + tail, sep) == [w + t[0]] + t[1..]
    decreases |w|
  {
    if |w| > 0 {
      assert (w + tail)[1..] == w[1..] + tail;
      SplitByWord(w[1..], tail, sep);
      assert [w[0]] + (w[1..] + SplitBy(tail, sep)[0]) == w + SplitBy(tail, sep)[0];
    } else {
      var t := SplitBy(tail, sep);
      assert w + tail == tail && w + t[0] == t[0];
      assert t == [t[0]] + t[1..];
    }
  }

  /** Splitting words joined by a separator character gives the words back,
      provided none of them contains a separator. */
  lemma {:induction false} SplitByJoin(parts: seq<string>, c: char, sep: char -> bool)
    requires 0 < |parts| && sep(c)
    requires forall k | 0 <= k < |parts| :: NoSeparator(parts[k], sep)
    ensures SplitBy(Join(parts, [c]), sep) == parts
    decreases |parts|
  {
    if |parts| == 1 {
      SplitByWord(parts[0], "", sep);
      assert parts[0] + "" == parts[0];
    } else {
      var rest := Join(parts[1..], [c]);
      SplitByJoin(parts[1..], c, sep);
      assert Join(parts, [c]) == parts[0] + ([c] + rest);
      SplitByWord(parts[0], [c] + rest, sep);
      assert ([c] + rest)[1..] == rest;
      assert SplitBy([c] + rest, sep) == [""] + parts[1..];
      assert parts[0] + "" == parts[0];
      assert parts == [parts[0]] + parts[1..];
    }
  }

  /** `to_uppercase` does not change what a digit is worth. */
  lemma UpperDigitValue(c: char)
    ensures DigitValue(UpperChar(c)) == DigitValue(c)
  {
  }

  lemma {:induction false} FromBaseUpper(s: string, base: nat)
    requires 2 <= base <= 16
    ensures FromBase(Upper(s), base) == FromBase(s, base)
    decreases |s|
  {
    if |s| > 0 {
      UpperDigitValue(s[|s| - 1]);
      if |s| > 1 {
        assert Upper(s)[..|s| - 1] == Upper(s[..|s| - 1]);
        FromBaseUpper(s[..|s| - 1], base);
      }
    }
  }

  /** Uppercasing a joined text uppercases each part. */
  lemma {:induction false} UpperJoin(parts: seq<string>, c: char)
    requires !('a' <= c <= 'z')
    ensures Upper(Join(parts, [c])) == Join(seq(|parts|, k requires 0 <= k < |parts| => Upper(parts[k])), [c])
    decreases |parts|
  {
    var ups := seq(|parts|, k requires 0 <= k < |parts| => Upper(parts[k]));
    if |parts| > 1 {
      UpperJoin(parts[1..], c);
      assert ups[1..] == seq(|parts[1..]|, k requires 0 <= k < |parts[1..]| => Upper(parts[1..][k]));
      UpperConcat(parts[0] + [c], Join(parts[1..], [c]));
      UpperConcat(parts[0], [c]);
    }
  }

  lemma UpperConcat(a: string, b: string)
    ensures Upper(a + b) == Upper(a) + Upper(b)
  {
  }

  /** A text with a character that is not whitespace does not trim to
      nothing. */
  lemma TrimKeepsNonBlank(s: string, i: nat)
    requires i < |s| && !IsWhitespace(s[i])
    ensures Trim(s) != ""
  {
    var u := TrimStart(s);
    var k := |s| - |u|;
    assert k <= i;
    assert u[i - k] == s[i];
  }

  /** Trimming a text that starts and ends with non-whitespace, indented
      and followed by a line break, gives the text back. */
  lemma TrimLine(indent: string, s: string, lineEnd: string)
    requires 0 < |s| && !IsWhitespace(s[0]) && !IsWhitespace(s[|s| - 1])
    requires forall j | 0 <= j < |indent| :: IsWhitespace(indent[j])
    requires forall j | 0 <= j < |lineEnd| :: IsWhitespace(lineEnd[j])
    ensures Trim(indent + s + lineEnd) == s
  {
    var line := indent + s + lineEnd;
    var u := TrimStart(line);
    var m := |line| - |u|;
    assert line[|indent|] == s[0];
    assert m <= |indent|;
    assert u[0] == line[m];
    assert m == |indent|;
    assert u == s + lineEnd;
    var t := TrimEnd(u);
    forall j | |s| <= j < |u|
      ensures IsWhitespace(u[j])
    {
      assert u[j] == lineEnd[j - |s|];
    }
    assert !IsWhitespace(u[|s| - 1]);
    assert 0 < |t| ==> t[|t| - 1] == u[|t| - 1];
    assert |t| == |s|;
    assert t == u[..|s|] == s;
  }

  lemma JoinCons(w: string, ws: seq<string>, sep: string)
    requires 0 < |ws|
    ensures Join([w] + ws, sep) == w + sep + Join(ws, sep)
  {
    assert ([w] + ws)[1..] == ws;
  }

  lemma {:induction false} JoinStartsWithFirst(parts: seq<string>, sep: string)
    requires 0 < |parts|
    ensures parts[0] <= Join(parts, sep)
  {
  }

  lemma {:induction false} JoinEndsWithLast(parts: seq<string>, sep: string)
    requires 0 < |parts|
    ensures var j, last := Join(parts, sep), parts[|parts| - 1];
      |last| <= |j| && j[|j| - |last|..] == last
    decreases |parts|
  {
    if |parts| > 1 {
      JoinEndsWithLast(parts[1..], sep);
      var rest := Join(parts[1..], sep);
      assert Join(parts, sep) == (parts[0] + sep) + rest;
    }
  }

  /** `filter(|s| s.len() > 0)` keeps a list without empty strings as it
      is. */
  lemma {:induction false} NonEmptyKeeps(xs: seq<string>)
    requires forall k | 0 <= k < |xs| :: xs[k] != ""
    ensures NonEmpty(xs) == xs
    decreases |xs|
  {
    if |xs| > 0 {
      NonEmptyKeeps(xs[1..]);
      assert xs == [xs[0]] + xs[1..];
    }
  }

  /** Splitting a concatenation: the last piece of the first part and the
      first piece of the second are glued together. */
  lemma {:induction false} SplitByConcat(a: string, b: string, sep: char -> bool)
    ensures Glued(SplitBy(a + b, sep), SplitBy(a, sep), SplitBy(b, sep))
    decreases |a|
  {
    var pa, pb := SplitBy(a, sep), SplitBy(b, sep);
    if |a| == 0 {
      assert a + b == b && pa == [""];
      assert "" + pb[0] == pb[0];
      assert pb == [pb[0]] + pb[1..];
    } else {
      var ab := a + b;
      assert ab[0] == a[0] && ab[1..] == a[1..] + b;
      SplitByConcat(a[1..], b, sep);
      var pr := SplitBy(a[1..], sep);
      var rest := SplitBy(a[1..] + b, sep);
      if sep(a[0]) {
        assert SplitBy(ab, sep) == [""] + rest;
        assert pa == [""] + pr;
        GluedAfterEmpty(rest, pr, pb);
      } else {
        assert SplitBy(ab, sep) == [[a[0]] + rest[0]] + rest[1..];
        assert pa == [[a[0]] + pr[0]] + pr[1..];
        GluedAfterChar(a[0], rest, pr, pb);
      }
    }
  }

  /** `whole` is `left` and `right` with the last of `left` glued to the
      first of `right`. */
  predicate Glued(whole: seq<string>, left: seq<string>, right: seq<string>)
    requires 0 < |left| && 0 < |right|
  {
    whole == left[..|left| - 1] + [left[|left| - 1] + right[0]] + right[1..]
  }

  lemma GluedAfterEmpty(rest: seq<string>, pr: seq<string>, pb: seq<string>)
    requires 0 < |pr| && 0 < |pb| && Glued(rest, pr, pb)
    ensures Glued([""] + rest, [""] + pr, pb)
  {
    var pa := [""] + pr;
    assert pa[..|pa| - 1] == [""] + pr[..|pr| - 1];
  }

  lemma GluedAfterChar(c: char, rest: seq<string>, pr: seq<string>, pb: seq<string>)
    requires 0 < |pr| && 0 < |pb| && Glued(rest, pr, pb)
    ensures Glued([[c] + rest[0]] + rest[1..], [[c] + pr[0]] + pr[1..], pb)
  {
    var pa := [[c] + pr[0]] + pr[1..];
    var glued := pr[|pr| - 1] + pb[0];
    if |pr| == 1 {
      assert rest[0] == glued && rest[1..] == pb[1..];
      assert [c] + glued == ([c] + pr[0]) + pb[0];
    } else {
      assert rest[0] == pr[0];
      assert rest[1..] == pr[1..|pr| - 1] + [glued] + pb[1..];
      assert pa[..|pa| - 1] == [[c] + pr[0]] + pr[1..|pr| - 1];
    }
  }

  /** The last piece of a split text: the word after its last separator. */
  function LastPiece(s: string, sep: char -> bool): string {
    var pieces := SplitBy(s, sep);
    pieces[|pieces| - 1]
  }

  /** A separator-free word after a separator is the last piece. */
  lemma LastPieceAfter(prefix: string, c: char, word: string, sep: char -> bool)
    requires sep(c) && NoSeparator(word, sep)
    ensures LastPiece(prefix + [c] + word, sep) == word
  {
    SplitByWord(word, "", sep);
    assert word + "" == word;
    assert ([c] + word)[1..] == word;
    assert SplitBy([c] + word, sep) == ["", word];
    SplitByConcat(prefix, [c] + word, sep);
    assert prefix + [c] + word == prefix + ([c] + word);
    assert SplitBy(prefix + [c] + word, sep)[|SplitBy(prefix + [c] + word, sep)| - 1] == word;
  }

  lemma NoSeparatorConcat(a: string, b: string, sep: char -> bool)
    requires NoSeparator(a, sep) && NoSeparator(b, sep)
    ensures NoSeparator(a + b, sep)
  {
    forall i | 0 <= i < |a + b|
      ensures !sep((a + b)[i])
    {
      if i >= |a| {
        assert (a + b)[i] == b[i - |a|];
      }
    }
  }
}
