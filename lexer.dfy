/** Lexical primitives of the `.proto` grammar (src/parser.rs:8-53), over a cursor: the whole
    input `s` and an offset `i` into it. A rule answers `Done(value, pos)` with the offset
    where it stopped, or `Error` when the text at `i` does not match. */
module Lexer {
  import opened Descriptor

  /** The outcome of one grammar rule; `:-` propagates a mismatch. */
  datatype Res<+T> = Error | Done(value: T, pos: nat) {
    predicate IsFailure() {
      Error?
    }

    function PropagateFailure<U>(): Res<U>
      requires Error?
    {
      Error
    }

    function Extract(): Res<T>
      requires Done?
    {
      this
    }
  }

  /** The text `p` occurs in `s` at offset `i`. */
  predicate At(s: string, i: nat, p: string) {
    i + |p| <= |s| && s[i..i + |p|] == p
  }

  lemma AtConcat(s: string, i: nat, p: string, q: string)
    ensures At(s, i, p + q) <==> At(s, i, p) && At(s, i + |p|, q)
  {
    if At(s, i, p) && At(s, i + |p|, q) {
      assert s[i..i + |p + q|] == s[i..i + |p|] + s[i + |p|..i + |p| + |q|];
    }
    if At(s, i, p + q) {
      assert s[i..i + |p|] == (p + q)[..|p|];
      assert s[i + |p|..i + |p| + |q|] == (p + q)[|p|..];
    }
  }

  /** One character of a text that stands at the cursor. */
  lemma AtChar(s: string, i: nat, p: string, d: nat)
    requires At(s, i, p) && d < |p|
    ensures s[i + d] == p[d]
  {
    assert s[i..i + |p|][d] == p[d];
  }

  lemma AtSingle(s: string, i: nat, c: char)
    ensures At(s, i, [c]) <==> i < |s| && s[i] == c
  {
    if i < |s| {
      assert s[i..i + 1] == [s[i]];
    }
  }

  predicate IsPrefix(p: string, t: string) {
    |p| <= |t| && t[..|p|] == p
  }

  /** A shorter text stands where `p` stands exactly when it begins `p`. */
  lemma AtShorter(s: string, i: nat, p: string, q: string)
    requires At(s, i, p) && |q| <= |p|
    ensures At(s, i, q) <==> IsPrefix(q, p)
  {
    assert s[i..i + |q|] == s[i..i + |p|][..|q|];
  }

  /** A longer text stands where `p` stands only if it continues with the character after `p`. */
  lemma AtLonger(s: string, i: nat, p: string, q: string)
    requires At(s, i, p) && |p| < |q|
    ensures At(s, i, q) ==> i + |p| < |s| && s[i + |p|] == q[|p|]
  {
    if At(s, i, q) {
      AtChar(s, i, q, |p|);
    }
  }

  /** nom's `tag!(p)`: `p` must stand at the cursor, which then moves past it. */
  function Tag(s: string, i: nat, p: string): (r: Res<()>)
    ensures r.Done? <==> At(s, i, p)
    ensures r.Done? ==> r.pos == i + |p|
  {
    if At(s, i, p) then Done((), i + |p|) else Error
  }

  // ---------------------------------------------------------------------------------------
  // Repetition: `many0!` and `separated_list!` read a chain of items.

  /** A chain of reads: from link `k` on, the read puts `rs[k]` in front of what is read from
      link `k + 1` on. */
  ghost predicate Chained<T>(ms: seq<Res<seq<T>>>, rs: seq<T>) {
    && |ms| == |rs| + 1
    && forall k {:trigger rs[k]} | 0 <= k < |rs| ::
         ms[k + 1].Done? && ms[k] == Done([rs[k]] + ms[k + 1].value, ms[k + 1].pos)
  }

  /** A chain whose last link reads nothing reads, from link `j` on, the remaining values in
      order. */
  lemma {:induction false} ChainReads<T>(ms: seq<Res<seq<T>>>, rs: seq<T>, e: nat, j: nat)
    requires Chained(ms, rs) && ms[|rs|] == Done([], e) && j <= |rs|
    ensures ms[j] == Done(rs[j..], e)
    decreases |rs| - j
  {
    if j < |rs| {
      var x := rs[j];
      ChainReads(ms, rs, e, j + 1);
      assert rs[j..] == [x] + rs[j + 1..];
    }
  }

  /** `is_word` (src/parser.rs:8-13). */
  predicate IsWordChar(c: char) {
    'a' <= c <= 'z' || 'A' <= c <= 'Z' || '0' <= c <= '9' || c == '_' || c == '.'
  }

  /** The characters nom's `multispace` accepts. */
  predicate IsSpace(c: char) {
    c == ' ' || c == '\t' || c == '\r' || c == '\n'
  }

  predicate IsDigit(c: char) {
    '0' <= c <= '9'
  }

  predicate IsHexDigit(c: char) {
    IsDigit(c) || 'a' <= c <= 'f' || 'A' <= c <= 'F'
  }

  /** The end of the longest run of characters satisfying `p` from offset `i` (`take_while!`). */
  function RunEnd(s: string, i: nat, p: char -> bool): (j: nat)
    requires i <= |s|
    ensures i <= j <= |s|
    ensures j == |s| || !p(s[j])
    decreases |s| - i
  {
    if i < |s| && p(s[i]) then RunEnd(s, i + 1, p) else i
  }

  /** Every character of the run satisfies `p`. */
  lemma {:induction false} RunEndAll(s: string, i: nat, p: char -> bool)
    requires i <= |s|
    ensures forall k | i <= k < RunEnd(s, i, p) :: p(s[k])
    decreases |s| - i
  {
    if i < |s| && p(s[i]) {
      RunEndAll(s, i + 1, p);
    }
  }

  /** A run is determined by its characters: any `j` that ends a `p`-run from `i` is `RunEnd`. */
  lemma {:induction false} RunEndUnique(s: string, i: nat, j: nat, p: char -> bool)
    requires i <= j <= |s|
    requires forall k | i <= k < j :: p(s[k])
    requires j == |s| || !p(s[j])
    ensures RunEnd(s, i, p) == j
    decreases j - i
  {
    if i < j {
      RunEndUnique(s, i + 1, j, p);
    }
  }

  /** `word` / `word_ref` (src/parser.rs:15-24): the longest run of word characters, possibly empty. */
  function Word(s: string, i: nat): (r: Res<string>)
    requires i <= |s|
    ensures r.Done? && i <= r.pos <= |s| && r.value == s[i..r.pos]
    ensures r.pos == |s| || !IsWordChar(s[r.pos])
  {
    var j := RunEnd(s, i, IsWordChar);
    Done(s[i..j], j)
  }

  /** The word read is made of word characters only. */
  lemma WordChars(s: string, i: nat)
    requires i <= |s|
    ensures IsWord(Word(s, i).value)
  {
    RunEndAll(s, i, IsWordChar);
    var w := Word(s, i).value;
    forall k | 0 <= k < |w| ensures IsWordChar(w[k]) {
      assert w[k] == s[i + k];
    }
  }

  predicate IsWord(w: string) {
    forall k | 0 <= k < |w| :: IsWordChar(w[k])
  }

  /** A word written at the cursor and not followed by a word character is read back whole. */
  lemma WordAt(s: string, i: nat, w: string)
    requires IsWord(w) && At(s, i, w)
    requires i + |w| == |s| || !IsWordChar(s[i + |w|])
    ensures Word(s, i) == Done(w, i + |w|)
  {
    forall k | i <= k < i + |w| ensures IsWordChar(s[k]) {
      assert s[k] == w[k - i];
    }
    RunEndUnique(s, i, i + |w|, IsWordChar);
  }

  /** nom's `multispace`: a non-empty run of blanks. */
  function Multispace(s: string, i: nat): (r: Res<()>)
    requires i <= |s|
    ensures r.Done? <==> i < |s| && IsSpace(s[i])
    ensures r.Done? ==> i < r.pos <= |s| && (r.pos == |s| || !IsSpace(s[r.pos]))
  {
    var j := RunEnd(s, i, IsSpace);
    if j == i then Error else Done((), j)
  }

  /** What `multispace` consumes is blanks and nothing else. */
  lemma MultispaceBlanks(s: string, i: nat)
    requires i <= |s| && Multispace(s, i).Done?
    ensures forall k | i <= k < Multispace(s, i).pos :: IsSpace(s[k])
  {
    RunEndAll(s, i, IsSpace);
  }

  /** The first offset at or after `i` where `p` occurs. */
  function Find(s: string, i: nat, p: string): (r: Option<nat>)
    requires i <= |s|
    ensures r.Some? ==> i <= r.value && At(s, r.value, p)
    ensures r.Some? ==> forall k | i <= k < r.value :: !At(s, k, p)
    ensures r.None? ==> forall k | i <= k <= |s| :: !At(s, k, p)
    decreases |s| - i
  {
    if At(s, i, p) then Some(i)
    else if i == |s| then None
    else Find(s, i + 1, p)
  }

  /** The first occurrence of `p` from offset `i` on is the one at `j`. */
  lemma {:induction false} FindAt(s: string, i: nat, p: string, j: nat)
    requires i <= j <= |s| && At(s, j, p)
    requires forall k | i <= k < j :: !At(s, k, p)
    ensures Find(s, i, p) == Some(j)
    decreases j - i
  {
    if i < j {
      FindAt(s, i + 1, p, j);
    }
  }

  /** `take_until_and_consume!(p)`: skip past the first occurrence of `p`; fails if there is none. */
  function TakeUntilAndConsume(s: string, i: nat, p: string): (r: Res<()>)
    requires i <= |s|
    ensures r.Done? ==> i + |p| <= r.pos <= |s| && At(s, r.pos - |p|, p)
    ensures r.Done? ==> forall k | i <= k < r.pos - |p| :: !At(s, k, p)
    ensures r.Error? ==> forall k | i <= k <= |s| :: !At(s, k, p)
  {
    match Find(s, i, p)
    case Some(k) => Done((), k + |p|)
    case None => Error
  }

  /** `take_until!(p)`: the text up to (not including) the first occurrence of `p`. */
  function TakeUntil(s: string, i: nat, p: string): (r: Res<string>)
    requires i <= |s|
    ensures r.Done? ==> i <= r.pos <= |s| && At(s, r.pos, p) && r.value == s[i..r.pos]
    ensures r.Done? ==> forall k | i <= k < r.pos :: !At(s, k, p)
    ensures r.Error? ==> forall k | i <= k <= |s| :: !At(s, k, p)
  {
    match Find(s, i, p)
    case Some(k) => Done(s[i..k], k)
    case None => Error
  }

  /** `comment` (src/parser.rs:40-43): `//` through the end of the line. */
  function Comment(s: string, i: nat): (r: Res<()>)
    requires i <= |s|
    ensures r.Done? ==> At(s, i, "//") && i + 3 <= r.pos <= |s| && s[r.pos - 1] == '\n'
  {
    var open :- Tag(s, i, "//");
    var rest :- TakeUntilAndConsume(s, open.pos, "\n");
    AtSingle(s, rest.pos - 1, '\n');
    rest
  }

  /** A `//` comment ends at the first line break after the `//`. */
  lemma CommentLine(s: string, i: nat)
    requires i <= |s| && Comment(s, i).Done?
    ensures forall k | i + 2 <= k < Comment(s, i).pos - 1 :: s[k] != '\n'
  {
    CharFree(s, i + 2, Comment(s, i).pos - 1, '\n');
  }

  /** Text in which the one-character text `[c]` never starts holds no `c`. */
  lemma CharFree(s: string, a: nat, b: nat, c: char)
    requires a <= b <= |s| && forall k | a <= k < b :: !At(s, k, [c])
    ensures forall k | a <= k < b :: s[k] != c
  {
    forall k | a <= k < b ensures s[k] != c {
      AtSingle(s, k, c);
    }
  }

  /** `block_comment` (src/parser.rs:44-47): `/*` through the first `*/`; comments do not nest. */
  function BlockComment(s: string, i: nat): (r: Res<()>)
    requires i <= |s|
    ensures r.Done? ==> At(s, i, "/*") && i + 4 <= r.pos <= |s| && At(s, r.pos - 2, "*/")
  {
    var open :- Tag(s, i, "/*");
    TakeUntilAndConsume(s, open.pos, "*/")
  }

  /** A block comment, opened by `/*`, ends at the first `*/` after it: comments do not nest. */
  lemma BlockCommentFirstClose(s: string, i: nat)
    requires i <= |s| && BlockComment(s, i).Done?
    ensures forall k | i + 2 <= k < BlockComment(s, i).pos - 2 :: !At(s, k, "*/")
  {
  }

  /** `br` (src/parser.rs:49-53): one word break, a blank run or a comment. */
  function Br(s: string, i: nat): (r: Res<()>)
    requires i <= |s|
    ensures r.Done? ==> i < r.pos <= |s|
    ensures r.Done? ==> IsSpace(s[i]) || s[i] == '/'
    ensures i < |s| && IsSpace(s[i]) ==> r.Done?
  {
    var blank := Multispace(s, i);
    if blank.Done? then blank
    else
      var line := Comment(s, i);
      if line.Done? then line else BlockComment(s, i)
  }

  /** A break is a blank run, a `//` comment or a `/* */` comment, tried in that order. */
  lemma BrKinds(s: string, i: nat)
    requires i <= |s|
    ensures Br(s, i).Done? ==> Br(s, i) == Multispace(s, i) || Br(s, i) == Comment(s, i) || Br(s, i) == BlockComment(s, i)
    ensures Multispace(s, i).Done? ==> Br(s, i) == Multispace(s, i)
    ensures Multispace(s, i).Error? && Comment(s, i).Done? ==> Br(s, i) == Comment(s, i)
    ensures Multispace(s, i).Error? && Comment(s, i).Error? ==> Br(s, i) == BlockComment(s, i)
  {
  }

  /** `many0!(br)`: skip every break at the cursor; it stops only where no break starts. */
  function Breaks(s: string, i: nat): (j: nat)
    requires i <= |s|
    ensures i <= j <= |s|
    ensures Solid(s, i) ==> j == i
    decreases |s| - i
  {
    var b := Br(s, i);
    if b.Done? then Breaks(s, b.pos) else i
  }

  /** `many0!(br)` consumes one break after another: where a break starts, it skips that break
      and then every break after it, and it stops only where no break starts. */
  lemma {:induction false} BreaksSkip(s: string, i: nat)
    requires i <= |s|
    ensures Br(s, i).Error? ==> Breaks(s, i) == i
    ensures Br(s, i).Done? ==> Breaks(s, i) == Breaks(s, Br(s, i).pos)
    ensures Br(s, Breaks(s, i)).Error?
    decreases |s| - i
  {
    var b := Br(s, i);
    if b.Done? {
      BreaksSkip(s, b.pos);
    }
  }

  /** `many1!(br)`: at least one break, then as many as follow. */
  function Breaks1(s: string, i: nat): (r: Res<()>)
    requires i <= |s|
    ensures r.Done? <==> Br(s, i).Done?
    ensures r.Done? ==> i < r.pos <= |s|
    ensures r.Done? ==> r.pos == Breaks(s, i)
  {
    var b :- Br(s, i);
    BreaksSkip(s, i);
    Done((), Breaks(s, b.pos))
  }

  /** No break can start at offset `j`: the end of the input, or a character that is neither a
      blank nor the `/` of a comment. */
  predicate Solid(s: string, j: nat) {
    j == |s| || (j < |s| && !IsSpace(s[j]) && s[j] != '/')
  }

  /** A single blank in front of solid text is one break, and the only one. */
  lemma BreaksOverBlank(s: string, i: nat)
    requires i < |s| && IsSpace(s[i]) && Solid(s, i + 1)
    ensures Breaks(s, i) == i + 1
    ensures Breaks1(s, i) == Done((), i + 1)
  {
    RunEndUnique(s, i, i + 1, IsSpace);
    assert Multispace(s, i) == Done((), i + 1);
  }

  function DigitValue(c: char): nat {
    if IsDigit(c) then (c as int - '0' as int) as nat else 0
  }

  function HexDigitValue(c: char): nat {
    if '0' <= c <= '9' then (c as int - '0' as int) as nat
    else if 'a' <= c <= 'f' then (c as int - 'a' as int + 10) as nat
    else if 'A' <= c <= 'F' then (c as int - 'A' as int + 10) as nat
    else 0
  }

  /** The number a digit string denotes in `base`, most significant digit first. */
  function ValueOf(t: string, base: nat, digit: char -> nat): nat {
    if t == [] then 0 else ValueOf(t[..|t| - 1], base, digit) * base + digit(t[|t| - 1])
  }

  /** `integer` (src/parser.rs:35-38): nom's `digit` (a non-empty run of decimal digits) read by
      `i32::from_str`, which fails when the value exceeds `i32::MAX`. There is no sign. */
  function Integer(s: string, i: nat): (r: Res<i32>)
    requires i <= |s|
    ensures r.Done? ==> i < r.pos <= |s| && 0 <= r.value as int
    ensures r.Done? ==> r.pos == |s| || !IsDigit(s[r.pos])
  {
    var j := RunEnd(s, i, IsDigit);
    if j == i then Error
    else
      var v := ValueOf(s[i..j], 10, DigitValue);
      if v <= I32_MAX then Done(v as i32, j) else Error
  }

  /** `hex_integer` (src/parser.rs:26-33): `0x` and a non-empty run of hexadecimal digits read by
      `i32::from_str_radix(_, 16)`, which fails above `i32::MAX`. */
  function HexInteger(s: string, i: nat): (r: Res<i32>)
    requires i <= |s|
    ensures r.Done? ==> At(s, i, "0x") && i + 2 < r.pos <= |s| && 0 <= r.value as int
    ensures r.Done? ==> r.pos == |s| || !IsHexDigit(s[r.pos])
  {
    var prefix :- Tag(s, i, "0x");
    var j := RunEnd(s, prefix.pos, IsHexDigit);
    if j == prefix.pos then Error
    else
      var v := ValueOf(s[prefix.pos..j], 16, HexDigitValue);
      if v <= I32_MAX then Done(v as i32, j) else Error
  }

  /** What `integer` reads: the decimal digits up to where it stops, and their value. */
  lemma IntegerValue(s: string, i: nat)
    requires i <= |s| && Integer(s, i).Done?
    ensures var r := Integer(s, i);
      && (forall k | i <= k < r.pos :: IsDigit(s[k]))
      && r.value as int == ValueOf(s[i..r.pos], 10, DigitValue)
  {
    RunEndAll(s, i, IsDigit);
  }

  /** What `hex_integer` reads: the hexadecimal digits after `0x` up to where it stops, and
      their value. */
  lemma HexIntegerValue(s: string, i: nat)
    requires i <= |s| && HexInteger(s, i).Done?
    ensures var r := HexInteger(s, i);
      && (forall k | i + 2 <= k < r.pos :: IsHexDigit(s[k]))
      && r.value as int == ValueOf(s[i + 2..r.pos], 16, HexDigitValue)
  {
    RunEndAll(s, i + 2, IsHexDigit);
  }

  /** A decimal literal whose value does not fit in an `i32` is not a number to `integer`. */
  lemma IntegerRejectsOverflow(s: string, i: nat, j: nat)
    requires i < j <= |s|
    requires forall k | i <= k < j :: IsDigit(s[k])
    requires j == |s| || !IsDigit(s[j])
    requires ValueOf(s[i..j], 10, DigitValue) > I32_MAX
    ensures Integer(s, i).Error?
  {
    RunEndUnique(s, i, j, IsDigit);
  }

  /** Likewise for a hexadecimal literal after `0x`. */
  lemma HexIntegerRejectsOverflow(s: string, i: nat, j: nat)
    requires At(s, i, "0x") && i + 2 < j <= |s|
    requires forall k | i + 2 <= k < j :: IsHexDigit(s[k])
    requires j == |s| || !IsHexDigit(s[j])
    requires ValueOf(s[i + 2..j], 16, HexDigitValue) > I32_MAX
    ensures HexInteger(s, i).Error?
  {
    RunEndUnique(s, i + 2, j, IsHexDigit);
  }

  function DigitChar(d: nat): (c: char)
    requires d < 10
    ensures IsDigit(c) && DigitValue(c) == d
  {
    ('0' as int + d) as char
  }

  /** The decimal numeral of `n`, the inverse of reading digits. */
  function DecimalText(n: nat): (t: string)
    ensures |t| > 0 && IsDigit(t[0])
  {
    if n < 10 then [DigitChar(n)] else DecimalText(n / 10) + [DigitChar(n % 10)]
  }

  lemma {:induction false} DecimalTextDigits(n: nat)
    ensures forall k | 0 <= k < |DecimalText(n)| :: IsDigit(DecimalText(n)[k])
  {
    if n >= 10 {
      DecimalTextDigits(n / 10);
    }
  }

  lemma {:induction false} DecimalTextValue(n: nat)
    ensures ValueOf(DecimalText(n), 10, DigitValue) == n
  {
    var t := DecimalText(n);
    if n >= 10 {
      DecimalTextValue(n / 10);
      assert t[..|t| - 1] == DecimalText(n / 10);
    }
  }

  /** `t` is a decimal numeral (leading zeros allowed) for `n`, and `n` fits in an `i32`. */
  predicate Numeral(t: string, n: nat) {
    && |t| > 0
    && (forall k | 0 <= k < |t| :: IsDigit(t[k]))
    && ValueOf(t, 10, DigitValue) == n
    && n <= I32_MAX
  }

  /** The shortest numeral of an `i32` value is a numeral for it. */
  lemma DecimalNumeral(n: nat)
    requires n <= I32_MAX
    ensures Numeral(DecimalText(n), n)
  {
    DecimalTextDigits(n);
    DecimalTextValue(n);
  }

  /** A numeral at the cursor, not followed by another digit, reads back as its value. */
  lemma IntegerReads(s: string, i: nat, t: string, n: nat)
    requires Numeral(t, n) && At(s, i, t)
    requires i + |t| == |s| || !IsDigit(s[i + |t|])
    ensures Integer(s, i) == Done(n as i32, i + |t|)
  {
    forall k | i <= k < i + |t| ensures IsDigit(s[k]) {
      AtChar(s, i, t, k - i);
    }
    RunEndUnique(s, i, i + |t|, IsDigit);
  }

  /** `t` is a hexadecimal numeral for `n`, and `n` fits in an `i32`. */
  predicate HexNumeral(t: string, n: nat) {
    && |t| > 0
    && (forall k | 0 <= k < |t| :: IsHexDigit(t[k]))
    && ValueOf(t, 16, HexDigitValue) == n
    && n <= I32_MAX
  }

  /** `0x` and a hexadecimal numeral, not followed by another hex digit, read back as its value. */
  lemma HexIntegerReads(s: string, i: nat, t: string, n: nat)
    requires HexNumeral(t, n) && At(s, i, "0x") && At(s, i + 2, t)
    requires i + 2 + |t| == |s| || !IsHexDigit(s[i + 2 + |t|])
    ensures HexInteger(s, i) == Done(n as i32, i + 2 + |t|)
  {
    forall k | i + 2 <= k < i + 2 + |t| ensures IsHexDigit(s[k]) {
      AtChar(s, i + 2, t, k - i - 2);
    }
    RunEndUnique(s, i + 2, i + 2 + |t|, IsHexDigit);
  }

  /** The characters Rust's `str::trim` removes (the ASCII ones; the input is read as ASCII). */
  predicate IsTrimSpace(c: char) {
    c == ' ' || '\t' <= c <= '\r'
  }

  /** The start of the trailing run of trim spaces in `t[lo..j]`. */
  function TrailStart(t: string, lo: nat, j: nat): (b: nat)
    requires lo <= j <= |t|
    ensures lo <= b <= j
    ensures forall k | b <= k < j :: IsTrimSpace(t[k])
    ensures b == lo || !IsTrimSpace(t[b - 1])
    decreases j
  {
    if j > lo && IsTrimSpace(t[j - 1]) then TrailStart(t, lo, j - 1) else j
  }

  /** `r` stands in `t` at offset `a` with nothing but white space around it. */
  ghost predicate PaddedAt(t: string, a: nat, r: string) {
    && a + |r| <= |t|
    && t[a..a + |r|] == r
    && (forall k | 0 <= k < a :: IsTrimSpace(t[k]))
    && (forall k | a + |r| <= k < |t| :: IsTrimSpace(t[k]))
  }

  /** `str::trim`: `t` without its leading and trailing white space. */
  function Trim(t: string): (r: string)
    ensures r == [] || (!IsTrimSpace(r[0]) && !IsTrimSpace(r[|r| - 1]))
  {
    var a := RunEnd(t, 0, IsTrimSpace);
    var b := TrailStart(t, a, |t|);
    t[a..b]
  }

  /** What `Trim` removes is white space at the two ends, and nothing else. */
  lemma TrimPadded(t: string)
    ensures exists a: nat :: PaddedAt(t, a, Trim(t))
  {
    var a := RunEnd(t, 0, IsTrimSpace);
    var b := TrailStart(t, a, |t|);
    RunEndAll(t, 0, IsTrimSpace);
    assert Trim(t) == t[a..b];
    assert PaddedAt(t, a, t[a..b]);
  }

  /** Text with no white space at either end is left as it is. */
  lemma TrimKeeps(t: string)
    requires t == [] || (!IsTrimSpace(t[0]) && !IsTrimSpace(t[|t| - 1]))
    ensures Trim(t) == t
  {
    if t != [] {
      RunEndUnique(t, 0, 0, IsTrimSpace);
      assert t[0..|t|] == t;
    }
  }
}
