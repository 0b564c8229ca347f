/** The grammar of the statements that make up a message or an enum body
    (src/parser.rs:81-112, 171-181, 238-317): `reserved` lists, `oneof` blocks, nested messages,
    enums with their values, and `extend` blocks. A message is read into a list of events that
    the fold of module `Events` turns into a `Message`. */
module Aggregates {
  import opened Descriptor
  import opened Lexer
  import FieldGrammar
  import opened Events

  // ---------------------------------------------------------------------------------------
  // reserved (src/parser.rs:81-112)

  /** The number `x` lies in the half-open range. */
  predicate Covers(r: Range, x: i32) {
    r.start <= x < r.end
  }

  /** `from_..to_.saturating_add(1)` (src/parser.rs:86, 95): the inclusive span `from to to` as a
      half-open range. Because the end saturates, `i32::MAX` itself is never covered. */
  function SpanRange(from: i32, to: i32): (r: Range)
    ensures r.start == from
    ensures forall x: i32 :: Covers(r, x) <==> from <= x <= to && x as int != I32_MAX
  {
    Range(from, SaturatingInc(to))
  }

  /** `num_range` (src/parser.rs:81-87): `A to B`. */
  function NumRange(s: string, i: nat): (r: Res<Range>)
    requires i <= |s|
    ensures r.Done? ==> i < r.pos <= |s|
  {
    var from :- Integer(s, i);
    var last :- SpanEnd(s, from.pos);
    Done(SpanRange(from.value, last.value), last.pos)
  }

  /** A span runs from the number at the cursor to the number after `to`, inclusive. */
  lemma NumRangeSpan(s: string, i: nat)
    requires i <= |s| && NumRange(s, i).Done?
    ensures Integer(s, i).Done? && SpanEnd(s, Integer(s, i).pos).Done?
    ensures NumRange(s, i).value == SpanRange(Integer(s, i).value, SpanEnd(s, Integer(s, i).pos).value)
    ensures NumRange(s, i).pos == SpanEnd(s, Integer(s, i).pos).pos
  {
  }

  /** The part of `num_range` after the first number: breaks, `to`, breaks, the last number. */
  function SpanEnd(s: string, i: nat): (r: Res<i32>)
    requires i <= |s|
    ensures r.Done? ==> i < r.pos <= |s|
  {
    match Breaks1(s, i)
    case Error => Error
    case Done(_, g) =>
      if !At(s, g, "to") then Error
      else
        match Breaks1(s, g + 2)
        case Error => Error
        case Done(_, h) => Integer(s, h)
  }

  /** The end of a span is the number read after at least one break, `to` and at least one
      more break. */
  lemma SpanEndAfterTo(s: string, i: nat)
    requires i <= |s| && SpanEnd(s, i).Done?
    ensures Breaks1(s, i).Done? && At(s, Breaks1(s, i).pos, "to")
    ensures Breaks1(s, Breaks1(s, i).pos + 2).Done?
    ensures SpanEnd(s, i) == Integer(s, Breaks1(s, Breaks1(s, i).pos + 2).pos)
  {
  }

  /** One item of a `reserved` number list (src/parser.rs:95): a span, or a single number `n`,
      which becomes `n..n+1`. */
  function ReservedNum(s: string, i: nat): (r: Res<Range>)
    requires i <= |s|
    ensures r.Done? ==> i < r.pos <= |s|
  {
    var span := NumRange(s, i);
    if span.Done? then span
    else
      var n :- Integer(s, i);
      Done(SpanRange(n.value, n.value), n.pos)
  }

  /** A span is tried first; only where none stands is a single number read, as the range of
      that one number. */
  lemma ReservedNumAlternatives(s: string, i: nat)
    requires i <= |s|
    ensures NumRange(s, i).Done? ==> ReservedNum(s, i) == NumRange(s, i)
    ensures NumRange(s, i).Error? ==> (ReservedNum(s, i).Done? <==> Integer(s, i).Done?)
    ensures NumRange(s, i).Error? && Integer(s, i).Done? ==>
      ReservedNum(s, i) == Done(SpanRange(Integer(s, i).value, Integer(s, i).value), Integer(s, i).pos)
  {
  }

  /** The separator of the number list (src/parser.rs:94): a comma with breaks around it. */
  function Comma(s: string, i: nat): (r: Res<()>)
    requires i <= |s|
    ensures r.Done? ==> i < r.pos <= |s|
  {
    var c :- Tag(s, Breaks(s, i), ",");
    Done((), Breaks(s, c.pos))
  }

  /** `separated_list!(comma, item)`: no item at all, or an item followed by more. */
  function NumList(s: string, i: nat): (r: Res<seq<Range>>)
    requires i <= |s|
    ensures r.Done? && i <= r.pos <= |s|
  {
    match ReservedNum(s, i)
    case Error => Done([], i)
    case Done(x, j) =>
      var more := MoreNums(s, j);
      Done([x] + more.value, more.pos)
  }

  /** The rest of the list: a separator and an item, repeatedly; a separator that is not
      followed by an item is left unconsumed. */
  function MoreNums(s: string, i: nat): (r: Res<seq<Range>>)
    requires i <= |s|
    ensures r.Done? && i <= r.pos <= |s|
    decreases |s| - i
  {
    var sep := Comma(s, i);
    if sep.Error? then Done([], i)
    else
      match ReservedNum(s, sep.pos)
      case Error => Done([], i)
      case Done(x, j) =>
        var more := MoreNums(s, j);
        Done([x] + more.value, more.pos)
  }

  /** `reserved_nums` (src/parser.rs:89-100). */
  function ReservedNums(s: string, i: nat): (r: Res<seq<Range>>)
    requires i <= |s|
    ensures r.Done? ==> At(s, i, "reserved") && i < r.pos <= |s|
  {
    var kw :- Tag(s, i, "reserved");
    var gap :- Breaks1(s, kw.pos);
    var nums := NumList(s, gap.pos);
    var semi :- Tag(s, Breaks(s, nums.pos), ";");
    Done(nums.value, semi.pos)
  }

  /** What may follow a quoted reserved name (src/parser.rs:108): breaks and commas, in any
      number and order. */
  function NameSeparators(s: string, i: nat): (j: nat)
    requires i <= |s|
    ensures i <= j <= |s|
    decreases |s| - i
  {
    var b := Br(s, i);
    if b.Done? then NameSeparators(s, b.pos)
    else if At(s, i, ",") then NameSeparators(s, i + 1)
    else i
  }

  /** One quoted name: `"`, a word (possibly empty), `"`, then separators. */
  function QuotedName(s: string, i: nat): (r: Res<string>)
    requires i <= |s|
    ensures r.Done? ==> At(s, i, "\"") && i < r.pos <= |s| && IsWord(r.value)
    ensures r.Done? ==> var w := Word(s, i + 1);
      && r.value == w.value && w.pos < |s| && s[w.pos] == '"' && r.pos == NameSeparators(s, w.pos + 1)
  {
    if !At(s, i, "\"") then Error
    else
      var name := Word(s, i + 1);
      WordChars(s, i + 1);
      AtSingle(s, name.pos, '"');
      if !At(s, name.pos, "\"") then Error
      else Done(name.value, NameSeparators(s, name.pos + 1))
  }

  /** `many0!` of quoted names. */
  function QuotedNameList(s: string, i: nat): (r: Res<seq<string>>)
    requires i <= |s|
    ensures r.Done? && i <= r.pos <= |s|
    ensures forall k | 0 <= k < |r.value| :: IsWord(r.value[k])
    ensures QuotedName(s, i).Error? ==> r == Done([], i)
    ensures QuotedName(s, i).Done? ==> |r.value| > 0 && r.value[0] == QuotedName(s, i).value
    ensures QuotedName(s, r.pos).Error?
    decreases |s| - i
  {
    var q := QuotedName(s, i);
    if q.Error? then Done([], i)
    else
      var more := QuotedNameList(s, q.pos);
      Done([q.value] + more.value, more.pos)
  }

  /** `reserved_names` (src/parser.rs:102-112): at least one quoted name. */
  function ReservedNames(s: string, i: nat): (r: Res<seq<string>>)
    requires i <= |s|
    ensures r.Done? ==> At(s, i, "reserved") && i < r.pos <= |s|
    ensures r.Done? ==> |r.value| > 0 && forall k | 0 <= k < |r.value| :: IsWord(r.value[k])
    ensures r.Done? ==> Breaks1(s, i + 8).Done? && QuotedName(s, Breaks1(s, i + 8).pos).Done?
    ensures r.Done? ==> r.value[0] == QuotedName(s, Breaks1(s, i + 8).pos).value
  {
    var kw :- Tag(s, i, "reserved");
    var gap :- Breaks1(s, kw.pos);
    var first :- QuotedName(s, gap.pos);
    var more := QuotedNameList(s, first.pos);
    var semi :- Tag(s, Breaks(s, more.pos), ";");
    Done([first.value] + more.value, semi.pos)
  }

  /** The names `ns` are written quoted from `p` on, one after another, and the last of them, with
      the separators after it, ends at `e`. */
  predicate NamesAt(s: string, p: nat, ns: seq<string>, e: nat)
    decreases |ns|
  {
    && p <= |s|
    && if |ns| == 0 then p == e
       else
         && QuotedName(s, p).Done? && QuotedName(s, p).value == ns[0]
         && NamesAt(s, QuotedName(s, p).pos, ns[1..], e)
  }

  /** `many0!` of quoted names reads the names written one after another, in written order, up
      to where no quoted name follows. */
  lemma {:induction false} QuotedNamesInOrder(s: string, p: nat, ns: seq<string>, e: nat)
    requires NamesAt(s, p, ns, e) && e <= |s| && QuotedName(s, e).Error?
    ensures QuotedNameList(s, p) == Done(ns, e)
    decreases |ns|
  {
    if |ns| > 0 {
      QuotedNamesInOrder(s, QuotedName(s, p).pos, ns[1..], e);
      assert [ns[0]] + ns[1..] == ns;
    }
  }

  /** `reserved`, breaks, quoted names written one after another, then breaks and `;`: the
      statement reads all the names in written order, and consumes the `;`. */
  lemma ReservedNamesInOrder(s: string, i: nat, ns: seq<string>, e: nat)
    requires i + 8 <= |s| && At(s, i, "reserved") && Breaks1(s, i + 8).Done?
    requires |ns| > 0 && NamesAt(s, Breaks1(s, i + 8).pos, ns, e)
    requires e <= |s| && QuotedName(s, e).Error? && At(s, Breaks(s, e), ";")
    ensures ReservedNames(s, i) == Done(ns, Breaks(s, e) + 1)
  {
    var g := Breaks1(s, i + 8).pos;
    var q := QuotedName(s, g).pos;
    QuotedNamesInOrder(s, q, ns[1..], e);
    ReservedNamesFromList(s, i, g, ns[0], q, ns[1..], e);
    assert [ns[0]] + ns[1..] == ns;
  }

  /** A `reserved` statement whose first name, after the keyword and its breaks, is `n` up to `q`,
      and whose further names read `more` up to `e`, where breaks and `;` follow. */
  lemma ReservedNamesFromList(s: string, i: nat, g: nat, n: string, q: nat, more: seq<string>, e: nat)
    requires i + 8 <= |s| && At(s, i, "reserved") && Breaks1(s, i + 8) == Done((), g)
    requires g <= |s| && QuotedName(s, g) == Done(n, q) && q <= |s| && QuotedNameList(s, q) == Done(more, e)
    requires e <= |s| && At(s, Breaks(s, e), ";")
    ensures ReservedNames(s, i) == Done([n] + more, Breaks(s, e) + 1)
  {
    var kw := Tag(s, i, "reserved");
    assert kw == Done((), i + 8);
    var semi := Tag(s, Breaks(s, e), ";");
    assert semi == Done((), Breaks(s, e) + 1);
  }

  // What a written `reserved` number list reads as (the test at src/parser.rs:514-534).

  /** No break starts at a `,` or a `;`. */
  lemma NoBreakAtPunctuation(s: string, q: nat)
    requires q < |s| && (s[q] == ',' || s[q] == ';')
    ensures Br(s, q).Error? && Breaks1(s, q).Error? && Breaks(s, q) == q
  {
  }

  /** A number with no break after it is a single item, not the start of a span. */
  lemma SingleFromParts(s: string, p: nat, v: i32, q: nat)
    requires p < q < |s| && Integer(s, p) == Done(v, q) && Breaks1(s, q).Error?
    ensures ReservedNum(s, p) == Done(SpanRange(v, v), q)
  {
  }

  lemma SingleReads(s: string, p: nat, n: nat, t: string)
    requires Numeral(t, n) && At(s, p, t)
    requires p + |t| < |s| && (s[p + |t|] == ',' || s[p + |t|] == ';')
    ensures ReservedNum(s, p) == Done(SpanRange(n as i32, n as i32), p + |t|)
  {
    IntegerReads(s, p, t, n);
    NoBreakAtPunctuation(s, p + |t|);
    SingleFromParts(s, p, n as i32, p + |t|);
  }

  /** Three texts one after the other. */
  lemma AtThree(s: string, p: nat, a: string, m: string, b: string)
    requires At(s, p, a + m + b)
    ensures At(s, p, a) && At(s, p + |a|, m) && At(s, p + |a| + |m|, b)
  {
    AtConcat(s, p, a + m, b);
    AtConcat(s, p, a, m);
  }

  /** The characters of ` to ` at `q`. */
  lemma ToLayout(s: string, q: nat)
    requires At(s, q, " to ")
    ensures q + 4 <= |s| && s[q] == ' ' && At(s, q + 1, "to") && s[q + 1] == 't' && s[q + 3] == ' '
  {
    assert " to " == " " + "to" + " ";
    AtThree(s, q, " ", "to", " ");
    AtSingle(s, q, ' ');
    AtSingle(s, q + 3, ' ');
    AtChar(s, q + 1, "to", 0);
  }

  /** The end of a span assembled from its parts. */
  lemma SpanEndFromParts(s: string, q: nat, b: i32, e: nat)
    requires q + 4 <= e <= |s|
    requires Breaks1(s, q) == Done((), q + 1) && At(s, q + 1, "to")
    requires Breaks1(s, q + 3) == Done((), q + 4) && Integer(s, q + 4) == Done(b, e)
    ensures SpanEnd(s, q) == Done(b, e)
  {
    var g := Breaks1(s, q).pos;
    assert g == q + 1 && At(s, g, "to");
    assert Breaks1(s, g + 2) == Done((), q + 4);
  }

  /** ` to B` at `q`, `B` not followed by a digit, reads as `B`. */
  lemma SpanEndReads(s: string, q: nat, b: nat, t: string)
    requires Numeral(t, b) && q + 4 < |s|
    requires s[q] == ' ' && At(s, q + 1, "to") && s[q + 1] == 't' && s[q + 3] == ' '
    requires At(s, q + 4, t) && IsDigit(s[q + 4])
    requires q + 4 + |t| == |s| || !IsDigit(s[q + 4 + |t|])
    ensures SpanEnd(s, q) == Done(b as i32, q + 4 + |t|)
  {
    assert Solid(s, q + 1) && Solid(s, q + 4);
    BreaksOverBlank(s, q);
    BreaksOverBlank(s, q + 3);
    IntegerReads(s, q + 4, t, b);
    SpanEndFromParts(s, q, b as i32, q + 4 + |t|);
  }

  /** A span item assembled from its two numbers. */
  lemma SpanFromParts(s: string, p: nat, q: nat, a: i32, b: i32, e: nat)
    requires p < q <= e <= |s| && Integer(s, p) == Done(a, q) && SpanEnd(s, q) == Done(b, e)
    ensures ReservedNum(s, p) == Done(SpanRange(a, b), e)
  {
  }

  /** `A to B` at `p`, followed by `,` or `;`, reads as the span `A..B+1`. */
  lemma SpanReads(s: string, p: nat, a: nat, ta: string, b: nat, tb: string)
    requires Numeral(ta, a) && Numeral(tb, b)
    requires At(s, p, ta) && At(s, p + |ta|, " to ") && At(s, p + |ta| + 4, tb)
    requires var e := p + |ta| + 4 + |tb|; e < |s| && (s[e] == ',' || s[e] == ';')
    ensures ReservedNum(s, p) == Done(SpanRange(a as i32, b as i32), p + |ta| + 4 + |tb|)
  {
    var q := p + |ta|;
    ToLayout(s, q);
    AtChar(s, q + 4, tb, 0);
    assert !IsDigit(s[q]) && IsDigit(s[q + 4]) && !IsDigit(s[q + 4 + |tb|]);
    IntegerReads(s, p, ta, a);
    SpanEndReads(s, q, b, tb);
    SpanFromParts(s, p, q, a as i32, b as i32, q + 4 + |tb|);
  }

  /** `, ` in front of a number is one separator. */
  lemma CommaReads(s: string, p: nat)
    requires p + 2 < |s| && s[p] == ',' && s[p + 1] == ' ' && IsDigit(s[p + 2])
    ensures Comma(s, p) == Done((), p + 2)
  {
    AtSingle(s, p, ',');
    BreaksOverBlank(s, p + 1);
  }

  /** The items `rs` are written from `p` on, each after its own separator, and the last of them
      ends at `e`. */
  predicate NumsAt(s: string, p: nat, rs: seq<Range>, e: nat)
    decreases |rs|
  {
    && p <= |s|
    && if |rs| == 0 then p == e
       else
         && Comma(s, p).Done? && ReservedNum(s, Comma(s, p).pos).Done?
         && ReservedNum(s, Comma(s, p).pos).value == rs[0]
         && NumsAt(s, ReservedNum(s, Comma(s, p).pos).pos, rs[1..], e)
  }

  /** Where the list stops: no separator, or a separator not followed by an item. */
  predicate NumsStop(s: string, e: nat) {
    e <= |s| && (Comma(s, e).Error? || ReservedNum(s, Comma(s, e).pos).Error?)
  }

  /** The list stops before a `;`, with or without breaks in front of it. */
  lemma SemicolonStops(s: string, e: nat)
    requires e <= |s| && At(s, Breaks(s, e), ";")
    ensures NumsStop(s, e)
  {
    AtSingle(s, Breaks(s, e), ';');
    AtSingle(s, Breaks(s, e), ',');
  }

  /** The rest of the list reads the items written after their separators, in written order,
      up to where no separator and item follow. */
  lemma {:induction false} MoreNumsInOrder(s: string, p: nat, rs: seq<Range>, e: nat)
    requires NumsAt(s, p, rs, e) && NumsStop(s, e)
    ensures MoreNums(s, p) == Done(rs, e)
    decreases |rs|
  {
    if |rs| > 0 {
      MoreNumsInOrder(s, ReservedNum(s, Comma(s, p).pos).pos, rs[1..], e);
      assert [rs[0]] + rs[1..] == rs;
    }
  }

  /** `separated_list!(comma, item)`: a first item read as `x` and further items written after
      separators are the list, in written order. */
  lemma NumListInOrder(s: string, p: nat, x: Range, q: nat, rs: seq<Range>, e: nat)
    requires p <= |s| && ReservedNum(s, p) == Done(x, q) && NumsAt(s, q, rs, e) && NumsStop(s, e)
    ensures NumList(s, p) == Done([x] + rs, e)
  {
    MoreNumsInOrder(s, q, rs, e);
  }

  /** A `reserved` statement whose list, after the keyword and its breaks, reads `rs` up to `e`,
      where breaks and `;` follow. */
  lemma ReservedNumsFromList(s: string, i: nat, g: nat, rs: seq<Range>, e: nat)
    requires i + 8 <= |s| && At(s, i, "reserved") && Breaks1(s, i + 8) == Done((), g)
    requires g <= |s| && NumList(s, g) == Done(rs, e) && e <= |s| && At(s, Breaks(s, e), ";")
    ensures ReservedNums(s, i) == Done(rs, Breaks(s, e) + 1)
  {
    var kw := Tag(s, i, "reserved");
    assert kw == Done((), i + 8);
    var semi := Tag(s, Breaks(s, e), ";");
    assert semi == Done((), Breaks(s, e) + 1);
  }

  /** `reserved`, breaks, a first item read as `x`, further items after separators, then breaks
      and `;`: the statement reads all the items' ranges in written order, and consumes the `;`. */
  lemma ReservedNumsInOrder(s: string, i: nat, x: Range, q: nat, rs: seq<Range>, e: nat)
    requires i + 8 <= |s| && At(s, i, "reserved") && Breaks1(s, i + 8).Done?
    requires ReservedNum(s, Breaks1(s, i + 8).pos) == Done(x, q) && NumsAt(s, q, rs, e)
    requires e <= |s| && At(s, Breaks(s, e), ";")
    ensures ReservedNums(s, i) == Done([x] + rs, Breaks(s, e) + 1)
  {
    var g := Breaks1(s, i + 8).pos;
    SemicolonStops(s, e);
    NumListInOrder(s, g, x, q, rs, e);
    ReservedNumsFromList(s, i, g, [x] + rs, e);
  }

  // The `reserved` statements of the test at src/parser.rs:514-534.

  const NumsSample: string := "reserved 4, 15, 17 to 20, 30;"

  /** The sample reads as `[4..5, 15..16, 17..21, 30..31]`, in written order, up to its end. */
  lemma NumsSampleReads(s: string)
    requires s == NumsSample
    ensures ReservedNums(s, 0) == Done([Range(4, 5), Range(15, 16), Range(17, 21), Range(30, 31)], 29)
  {
    var rs := [Range(15, 16), Range(17, 21), Range(30, 31)];
    NumsSampleHead(s);
    NumsSampleTail(s);
    NumsStatement(s, Range(4, 5), 10, rs, 28);
    SampleRanges();
  }

  lemma SampleRanges()
    ensures [Range(4, 5)] + [Range(15, 16), Range(17, 21), Range(30, 31)]
         == [Range(4, 5), Range(15, 16), Range(17, 21), Range(30, 31)]
  {
  }

  lemma NumsStatement(s: string, x: Range, q: nat, rs: seq<Range>, e: nat)
    requires 8 <= |s| && At(s, 0, "reserved") && Breaks1(s, 8) == Done((), 9)
    requires ReservedNum(s, 9) == Done(x, q) && NumsAt(s, q, rs, e)
    requires e <= |s| && Breaks(s, e) == e && At(s, e, ";")
    ensures ReservedNums(s, 0) == Done([x] + rs, e + 1)
  {
    ReservedNumsInOrder(s, 0, x, q, rs, e);
  }

  lemma NumsSampleHead(s: string)
    requires s == NumsSample
    ensures 29 == |s| && At(s, 0, "reserved") && Breaks1(s, 8) == Done((), 9)
    ensures ReservedNum(s, 9) == Done(Range(4, 5), 10)
  {
    assert s[0..8] == "reserved" && s[8] == ' ' && s[9] == '4' && s[10] == ',';
    BreaksOverBlank(s, 8);
    SampleNumerals();
    assert s[9..10] == "4";
    SingleReads(s, 9, 4, "4");
  }

  lemma NumsSampleSecond(s: string)
    requires s == NumsSample
    ensures 28 < |s| && Comma(s, 10) == Done((), 12) && ReservedNum(s, 12) == Done(Range(15, 16), 14)
  {
    assert |s| == 29 && s[10] == ',' && s[11] == ' ' && s[12] == '1' && s[13] == '5' && s[14] == ',';
    CommaReads(s, 10);
    SampleNumerals();
    assert s[12..14] == "15";
    SingleReads(s, 12, 15, "15");
  }

  lemma NumsSampleThird(s: string)
    requires s == NumsSample
    ensures 28 < |s| && Comma(s, 14) == Done((), 16) && ReservedNum(s, 16) == Done(Range(17, 21), 24)
  {
    assert |s| == 29 && s[14] == ',' && s[15] == ' ' && s[16] == '1';
    CommaReads(s, 14);
    NumsSampleSpan(s);
  }

  lemma NumsSampleSpan(s: string)
    requires s == NumsSample
    ensures 28 < |s| && ReservedNum(s, 16) == Done(Range(17, 21), 24)
  {
    assert |s| == 29 && s[24] == ',';
    SampleNumerals();
    assert s[16] == '1' && s[17] == '7' && s[18] == ' ' && s[19] == 't' && s[20] == 'o' && s[21] == ' ';
    assert s[22] == '2' && s[23] == '0';
    assert s[16..18] == "17" && s[18..22] == " to " && s[22..24] == "20";
    SpanReads(s, 16, 17, "17", 20, "20");
  }

  /** The numerals the sample is written with. */
  lemma SampleNumerals()
    ensures Numeral("4", 4) && Numeral("15", 15) && Numeral("17", 17) && Numeral("20", 20) && Numeral("30", 30)
  {
    DecimalNumeral(4);
    DecimalNumeral(15);
    DecimalNumeral(17);
    DecimalNumeral(20);
    DecimalNumeral(30);
    assert DecimalText(4) == "4" && DecimalText(15) == "15" && DecimalText(17) == "17";
    assert DecimalText(20) == "20" && DecimalText(30) == "30";
  }

  lemma NumsSampleLast(s: string)
    requires s == NumsSample
    ensures 28 < |s| && Comma(s, 24) == Done((), 26) && ReservedNum(s, 26) == Done(Range(30, 31), 28)
  {
    assert |s| == 29 && s[24] == ',' && s[25] == ' ' && s[26] == '3' && s[27] == '0' && s[28] == ';';
    CommaReads(s, 24);
    SampleNumerals();
    assert s[26..28] == "30";
    SingleReads(s, 26, 30, "30");
  }

  lemma NumsSampleTail(s: string)
    requires s == NumsSample
    ensures NumsAt(s, 10, [Range(15, 16), Range(17, 21), Range(30, 31)], 28)
    ensures Breaks(s, 28) == 28 && At(s, 28, ";")
  {
    NumsSampleSecond(s);
    NumsSampleThird(s);
    NumsSampleLast(s);
    NumsAtCons(s, 24, 26, Range(30, 31), 28, [], 28);
    NumsAtCons(s, 14, 16, Range(17, 21), 24, [Range(30, 31)], 28);
    NumsAtCons(s, 10, 12, Range(15, 16), 14, [Range(17, 21), Range(30, 31)], 28);
    assert s[28] == ';' && Solid(s, 28);
    AtSingle(s, 28, ';');
  }

  /** One more item, after its separator, in front of items written from `q` on. */
  lemma NumsAtCons(s: string, p: nat, c: nat, x: Range, q: nat, rs: seq<Range>, e: nat)
    requires p <= |s| && Comma(s, p) == Done((), c) && ReservedNum(s, c) == Done(x, q)
    requires NumsAt(s, q, rs, e)
    ensures NumsAt(s, p, [x] + rs, e)
  {
    assert ([x] + rs)[1..] == rs;
  }

  const NamesSample: string := "reserved \"foo\", \"bar\";"

  /** The sample reads as `["foo", "bar"]`, up to its end. */
  lemma NamesSampleReads()
    ensures ReservedNames(NamesSample, 0) == Done(["foo", "bar"], 22)
  {
    NamesSampleHead();
    NamesSampleFirst();
    NamesSampleSecond();
    NamesSampleEnd();
    NamesStatement(NamesSample, "foo", 16, "bar", 21);
  }

  lemma NamesStatement(s: string, a: string, q: nat, b: string, e: nat)
    requires 8 <= |s| && At(s, 0, "reserved") && Breaks1(s, 8) == Done((), 9)
    requires q <= |s| && QuotedName(s, 9) == Done(a, q) && QuotedName(s, q) == Done(b, e)
    requires e <= |s| && QuotedName(s, e).Error? && Breaks(s, e) == e && At(s, e, ";")
    ensures ReservedNames(s, 0) == Done([a, b], e + 1)
  {
    TwoNamesAt(s, 9, a, q, b, e);
    ReservedNamesInOrder(s, 0, [a, b], e);
  }

  /** Two quoted names, one after the other. */
  lemma TwoNamesAt(s: string, p: nat, a: string, q: nat, b: string, e: nat)
    requires p <= |s| && q <= |s| && QuotedName(s, p) == Done(a, q) && QuotedName(s, q) == Done(b, e)
    ensures NamesAt(s, p, [a, b], e)
  {
    NamesAtCons(s, q, b, e, [], e);
    NamesAtCons(s, p, a, q, [b], e);
  }

  lemma NamesSampleHead()
    ensures 22 == |NamesSample| && At(NamesSample, 0, "reserved") && Breaks1(NamesSample, 8) == Done((), 9)
  {
    var s := NamesSample;
    assert s[0..8] == "reserved" && s[8] == ' ' && s[9] == '"';
    BreaksOverBlank(s, 8);
  }

  lemma NamesSampleFirst()
    ensures 22 == |NamesSample| && QuotedName(NamesSample, 9) == Done("foo", 16)
  {
    var s := NamesSample;
    assert s[9] == '"' && s[13] == '"';
    assert s[10..13] == "foo";
    NamesSampleSeparators();
    QuotedWordReads(s, 9, "foo", 16);
  }

  lemma NamesSampleSeparators()
    ensures 22 == |NamesSample| && NameSeparators(NamesSample, 14) == 16
  {
    var s := NamesSample;
    assert s[14] == ',' && s[15] == ' ' && s[16] == '"';
    SeparatorsOverCommaBlank(s, 14);
  }

  lemma NamesSampleSecond()
    ensures 22 == |NamesSample| && QuotedName(NamesSample, 16) == Done("bar", 21)
  {
    var s := NamesSample;
    assert s[16] == '"' && s[20] == '"' && s[21] == ';';
    assert s[17..20] == "bar";
    SeparatorsStop(s, 21);
    QuotedWordReads(s, 16, "bar", 21);
  }

  lemma NamesSampleEnd()
    ensures 22 == |NamesSample| && QuotedName(NamesSample, 21).Error?
    ensures Breaks(NamesSample, 21) == 21 && At(NamesSample, 21, ";")
  {
    var s := NamesSample;
    assert s[21] == ';' && Solid(s, 21);
    AtSingle(s, 21, '"');
    AtSingle(s, 21, ';');
  }

  /** One more quoted name in front of names written from `q` on. */
  lemma NamesAtCons(s: string, p: nat, n: string, q: nat, ns: seq<string>, e: nat)
    requires p <= |s| && QuotedName(s, p) == Done(n, q) && NamesAt(s, q, ns, e)
    ensures NamesAt(s, p, [n] + ns, e)
  {
    assert ([n] + ns)[1..] == ns;
  }

  /** A word between quotes, with the separators after it ending at `e`, is one quoted name. */
  lemma QuotedWordReads(s: string, p: nat, w: string, e: nat)
    requires IsWord(w) && p + |w| + 2 <= |s| && s[p] == '"' && At(s, p + 1, w) && s[p + 1 + |w|] == '"'
    requires NameSeparators(s, p + 2 + |w|) == e
    ensures QuotedName(s, p) == Done(w, e)
  {
    AtSingle(s, p, '"');
    WordAt(s, p + 1, w);
    AtSingle(s, p + 1 + |w|, '"');
  }

  /** A `,` and one blank in front of solid text other than `,` are the separators. */
  lemma SeparatorsOverCommaBlank(s: string, p: nat)
    requires p + 2 < |s| && s[p] == ',' && IsSpace(s[p + 1]) && Solid(s, p + 2) && s[p + 2] != ','
    ensures NameSeparators(s, p) == p + 2
  {
    AtSingle(s, p, ',');
    RunEndUnique(s, p + 1, p + 2, IsSpace);
    assert Br(s, p + 1) == Done((), p + 2);
    SeparatorsStop(s, p + 2);
  }

  /** No separator starts at solid text other than `,`. */
  lemma SeparatorsStop(s: string, p: nat)
    requires p < |s| && Solid(s, p) && s[p] != ','
    ensures NameSeparators(s, p) == p
  {
    AtSingle(s, p, ',');
  }

  // ---------------------------------------------------------------------------------------
  // oneof and extend (src/parser.rs:171-181, 283-294)

  /** The heading `one_of` and `extensions` share: the keyword, at least one break, a name and
      any breaks, up to the opening brace. */
  function Heading(s: string, i: nat, kw: string): (r: Res<string>)
    requires i <= |s|
    ensures r.Done? ==> At(s, i, kw) && i + |kw| < r.pos <= |s|
    ensures r.Done? ==> Breaks1(s, i + |kw|).Done? && r.value == Word(s, Breaks1(s, i + |kw|).pos).value
  {
    var key :- Tag(s, i, kw);
    var gap :- Breaks1(s, key.pos);
    var name := Word(s, gap.pos);
    Done(name.value, Breaks(s, name.pos))
  }

  /** `one_of` (src/parser.rs:171-181). */
  function OneOf(s: string, i: nat): (r: Res<OneOf>)
    requires i <= |s|
    ensures r.Done? ==> At(s, i, "oneof") && i < r.pos <= |s|
    ensures r.Done? ==> Heading(s, i, "oneof").Done? && FieldGrammar.FieldsInBraces(s, Heading(s, i, "oneof").pos).Done?
    ensures r.Done? ==> r.value.name == Heading(s, i, "oneof").value
    ensures r.Done? ==> r.value.fields == FieldGrammar.FieldsInBraces(s, Heading(s, i, "oneof").pos).value
  {
    var head :- Heading(s, i, "oneof");
    var body :- FieldGrammar.FieldsInBraces(s, head.pos);
    Done(Descriptor.OneOf(head.value, body.value), Breaks(s, body.pos))
  }

  /** Every field of an `extend` block, each tagged with the extended message's name. */
  function ExtendAll(extendee: string, fields: seq<Field>): (r: seq<Extension>)
    ensures |r| == |fields|
    ensures forall k | 0 <= k < |r| :: r[k].extendee == extendee && r[k].field == fields[k]
  {
    if fields == [] then [] else [Extension(extendee, fields[0])] + ExtendAll(extendee, fields[1..])
  }

  /** `extensions` (src/parser.rs:283-294): `extend X { fields }`. */
  function Extensions(s: string, i: nat): (r: Res<seq<Extension>>)
    requires i <= |s|
    ensures r.Done? ==> At(s, i, "extend") && i < r.pos <= |s|
    ensures r.Done? ==> Heading(s, i, "extend").Done? && FieldGrammar.FieldsInBraces(s, Heading(s, i, "extend").pos).Done?
    ensures r.Done? ==> var fields := FieldGrammar.FieldsInBraces(s, Heading(s, i, "extend").pos).value;
      && |r.value| == |fields|
      && forall k | 0 <= k < |r.value| :: r.value[k] == Extension(Heading(s, i, "extend").value, fields[k])
  {
    var head :- Heading(s, i, "extend");
    var body :- FieldGrammar.FieldsInBraces(s, head.pos);
    Done(ExtendAll(head.value, body.value), body.pos)
  }

  /** `kw X {`, written with single blanks, is headed by the name `X`, up to the brace. */
  lemma HeadingReads(s: string, i: nat, kw: string, x: string)
    requires At(s, i, kw) && i + |kw| < |s| && s[i + |kw|] == ' '
    requires IsWord(x) && |x| > 0 && At(s, i + |kw| + 1, x)
    requires var q := i + |kw| + 1 + |x|; q + 1 < |s| && s[q] == ' ' && s[q + 1] == '{'
    ensures Heading(s, i, kw) == Done(x, i + |kw| + 2 + |x|)
  {
    var q := i + |kw| + 1 + |x|;
    AtChar(s, i + |kw| + 1, x, 0);
    BreaksOverBlank(s, i + |kw|);
    WordAt(s, i + |kw| + 1, x);
    BreaksOverBlank(s, q);
    HeadingFromParts(s, i, kw, x, q);
  }

  /** The keyword, one break, the name and one more break make the heading. */
  lemma HeadingFromParts(s: string, i: nat, kw: string, x: string, q: nat)
    requires i + |kw| < q < |s| && At(s, i, kw) && Breaks1(s, i + |kw|) == Done((), i + |kw| + 1)
    requires Word(s, i + |kw| + 1) == Done(x, q) && Breaks(s, q) == q + 1
    ensures Heading(s, i, kw) == Done(x, q + 1)
  {
    var key := Tag(s, i, kw);
    assert key == Done((), i + |kw|);
    var gap := Breaks1(s, key.pos);
    assert gap == Done((), i + |kw| + 1);
    var name := Word(s, gap.pos);
    assert name == Done(x, q);
    assert Heading(s, i, kw) == Done(name.value, Breaks(s, name.pos));
  }

  /** An `extend` heading naming `X` and a braced field list extend `X` with each field in turn. */
  lemma ExtendFromParts(s: string, i: nat, x: string, q: nat, fs: seq<Field>, p: nat)
    requires i <= |s| && Heading(s, i, "extend") == Done(x, q) && FieldGrammar.FieldsInBraces(s, q) == Done(fs, p)
    ensures Extensions(s, i) == Done(ExtendAll(x, fs), p)
  {
  }

  /** A `oneof` heading naming `X` and a braced field list are the group `X` of those fields. */
  lemma OneOfFromParts(s: string, i: nat, x: string, q: nat, fs: seq<Field>, p: nat)
    requires i <= |s| && Heading(s, i, "oneof") == Done(x, q) && FieldGrammar.FieldsInBraces(s, q) == Done(fs, p)
    ensures OneOf(s, i) == Done(Descriptor.OneOf(x, fs), Breaks(s, p))
  {
  }

  // ---------------------------------------------------------------------------------------
  // enum (src/parser.rs:296-317)

  /** `alt!(hex_integer | integer)`: a hexadecimal literal, or else a decimal one. */
  function EnumNumber(s: string, i: nat): (r: Res<i32>)
    requires i <= |s|
    ensures r.Done? ==> i < r.pos <= |s| && 0 <= r.value as int
  {
    var hex := HexInteger(s, i);
    if hex.Done? then hex else Integer(s, i)
  }

  /** The number is either `0x` and hexadecimal digits read in base 16, or decimal digits read
      in base 10. */
  lemma EnumNumberValue(s: string, i: nat)
    requires i <= |s| && EnumNumber(s, i).Done?
    ensures var r := EnumNumber(s, i);
      || (&& At(s, i, "0x") && i + 2 < r.pos
          && (forall k | i + 2 <= k < r.pos :: IsHexDigit(s[k]))
          && r.value as int == ValueOf(s[i + 2..r.pos], 16, HexDigitValue))
      || (&& (forall k | i <= k < r.pos :: IsDigit(s[k]))
          && r.value as int == ValueOf(s[i..r.pos], 10, DigitValue))
  {
    if HexInteger(s, i).Done? {
      HexIntegerValue(s, i);
    } else {
      IntegerValue(s, i);
    }
  }

  /** What follows `=` in an enum value: the number, `;`, and the breaks after it. */
  function EnumValueTail(s: string, i: nat, name: string): (r: Res<EnumValue>)
    requires i <= |s|
    ensures r.Done? ==> i < r.pos <= |s| && r.value.name == name
    ensures r.Done? ==> EnumNumber(s, i).Done? && r.value.number == EnumNumber(s, i).value
  {
    var number :- EnumNumber(s, i);
    ValueEnd(s, number.value, number.pos, name)
  }

  /** After the number at `j`: breaks, `;`, breaks. */
  function ValueEnd(s: string, v: i32, j: nat, name: string): (r: Res<EnumValue>)
    requires j <= |s|
    ensures r.Done? ==> j < r.pos <= |s| && r.value == Descriptor.EnumValue(name, v)
  {
    var semi :- Tag(s, Breaks(s, j), ";");
    Done(Descriptor.EnumValue(name, v), Breaks(s, semi.pos))
  }

  /** A `;` right after the number closes the value. */
  lemma ValueEndAtSemicolon(s: string, v: i32, j: nat, name: string)
    requires j < |s| && s[j] == ';'
    ensures ValueEnd(s, v, j, name) == Done(Descriptor.EnumValue(name, v), Breaks(s, j + 1))
  {
    assert Solid(s, j);
    AtSingle(s, j, ';');
  }

  /** A number, then `;`, is a value named `name`. */
  lemma EnumTailFromParts(s: string, i: nat, v: i32, j: nat, name: string)
    requires i < j < |s| && EnumNumber(s, i) == Done(v, j) && s[j] == ';'
    ensures EnumValueTail(s, i, name) == Done(Descriptor.EnumValue(name, v), Breaks(s, j + 1))
  {
    ValueEndAtSemicolon(s, v, j, name);
  }

  /** `0x` and a hexadecimal numeral, then `;`: the value is the numeral's, read in base 16. */
  lemma EnumHexReads(s: string, i: nat, t: string, n: nat, name: string)
    requires HexNumeral(t, n) && At(s, i, "0x") && At(s, i + 2, t)
    requires i + 2 + |t| < |s| && s[i + 2 + |t|] == ';'
    ensures EnumValueTail(s, i, name) == Done(Descriptor.EnumValue(name, n as i32), Breaks(s, i + 3 + |t|))
  {
    HexIntegerReads(s, i, t, n);
    EnumTailFromParts(s, i, n as i32, i + 2 + |t|, name);
  }

  /** A decimal numeral, then `;`: the value is the numeral's, read in base 10. */
  lemma EnumDecimalReads(s: string, i: nat, t: string, n: nat, name: string)
    requires Numeral(t, n) && At(s, i, t)
    requires i + |t| < |s| && s[i + |t|] == ';'
    ensures EnumValueTail(s, i, name) == Done(Descriptor.EnumValue(name, n as i32), Breaks(s, i + |t| + 1))
  {
    NotHexPrefix(s, i, t);
    IntegerReads(s, i, t, n);
    EnumTailFromParts(s, i, n as i32, i + |t|, name);
  }

  /** Digits followed by `;` are not `0x`. */
  lemma NotHexPrefix(s: string, i: nat, t: string)
    requires |t| > 0 && (forall k | 0 <= k < |t| :: IsDigit(t[k])) && At(s, i, t)
    requires i + |t| < |s| && s[i + |t|] == ';'
    ensures HexInteger(s, i).Error?
  {
    if At(s, i, "0x") {
      AtChar(s, i, "0x", 1);
      if |t| > 1 {
        AtChar(s, i, t, 1);
      }
    }
  }

  /** A hexadecimal literal too large for an `i32` is not a value: the hexadecimal reading fails,
      the decimal one reads the `0` and stops at the `x`, where no `;` is. */
  lemma EnumHexOverflowFails(s: string, i: nat, j: nat, name: string)
    requires At(s, i, "0x") && i + 2 < j <= |s|
    requires forall k | i + 2 <= k < j :: IsHexDigit(s[k])
    requires j == |s| || !IsHexDigit(s[j])
    requires ValueOf(s[i + 2..j], 16, HexDigitValue) > I32_MAX
    ensures EnumValueTail(s, i, name).Error?
  {
    HexIntegerRejectsOverflow(s, i, j);
    assert "0x" == "0" + "x";
    AtConcat(s, i, "0", "x");
    AtSingle(s, i + 1, 'x');
    IntegerReads(s, i, "0", 0);
    assert Solid(s, i + 1);
  }

  /** A decimal literal too large for an `i32` is not a value. */
  lemma EnumDecimalOverflowFails(s: string, i: nat, j: nat, name: string)
    requires i < j <= |s| && forall k | i <= k < j :: IsDigit(s[k])
    requires j == |s| || !IsDigit(s[j])
    requires ValueOf(s[i..j], 10, DigitValue) > I32_MAX
    ensures EnumValueTail(s, i, name).Error?
  {
    IntegerRejectsOverflow(s, i, j);
    NoHexPrefix(s, i, j);
  }

  /** A run of decimal digits whose value exceeds one digit's does not start with `0x`. */
  lemma NoHexPrefix(s: string, i: nat, j: nat)
    requires i < j <= |s| && forall k | i <= k < j :: IsDigit(s[k])
    requires ValueOf(s[i..j], 10, DigitValue) > 9
    ensures !At(s, i, "0x")
  {
    HexPrefixEndsDigits(s, i, j);
    assert s[i..i + 1] == [s[i]];
  }

  /** After `0`, the `x` of `0x` ends a run of decimal digits. */
  lemma HexPrefixEndsDigits(s: string, i: nat, j: nat)
    requires i < j <= |s| && forall k | i <= k < j :: IsDigit(s[k])
    ensures At(s, i, "0x") ==> j == i + 1
  {
    if At(s, i, "0x") {
      AtChar(s, i, "0x", 1);
    }
  }

  /** `enum_value` (src/parser.rs:296-305): `NAME = number;`. */
  function EnumValue(s: string, i: nat): (r: Res<EnumValue>)
    requires i <= |s|
    ensures r.Done? ==> i < r.pos <= |s|
  {
    var name := Word(s, i);
    var eq := Breaks(s, name.pos);
    if !At(s, eq, "=") then Error
    else EnumValueTail(s, Breaks(s, eq + 1), name.value)
  }

  /** A value is named by the word at the cursor, which `=` follows after any breaks; its number
      is what `EnumValueTail` reads after the `=`. */
  lemma EnumValueName(s: string, i: nat)
    requires i <= |s| && EnumValue(s, i).Done?
    ensures EnumValue(s, i).value.name == Word(s, i).value
    ensures At(s, Breaks(s, Word(s, i).pos), "=")
  {
  }

  /** `many0!(enum_value)`: values as long as one matches. */
  function EnumValues(s: string, i: nat): (r: Res<seq<EnumValue>>)
    requires i <= |s|
    ensures r.Done? && i <= r.pos <= |s|
    ensures EnumValue(s, r.pos).Error?
    decreases |s| - i
  {
    var v := EnumValue(s, i);
    if v.Error? then Done([], i)
    else
      var more := EnumValues(s, v.pos);
      Done([v.value] + more.value, more.pos)
  }

  /** One more turn of the value loop: a value read up to `j` goes in front of the values read
      from `j` on. */
  lemma EnumValuesStep(s: string, i: nat, v: EnumValue, j: nat)
    requires i < j <= |s| && EnumValue(s, i) == Done(v, j)
    ensures EnumValues(s, i) == Done([v] + EnumValues(s, j).value, EnumValues(s, j).pos)
  {
  }

  /** The values `vs[k]` are read one after another, from `ps[k]` to `ps[k + 1]`. */
  predicate ReadsValues(s: string, ps: seq<nat>, vs: seq<EnumValue>) {
    && |ps| == |vs| + 1
    && (forall k | 0 <= k < |ps| :: ps[k] <= |s|)
    && forall k {:trigger vs[k]} | 0 <= k < |vs| :: ps[k] < ps[k + 1] && EnumValue(s, ps[k]) == Done(vs[k], ps[k + 1])
  }

  /** What the value loop reads from offset `p` on (nothing past the end). */
  function ValuesFrom(s: string, p: nat): Res<seq<EnumValue>> {
    if p <= |s| then EnumValues(s, p) else Error
  }

  /** Values read one after another chain the value loop's reads from each of their offsets. */
  lemma ValuesChain(s: string, ps: seq<nat>, vs: seq<EnumValue>)
    requires ReadsValues(s, ps, vs)
    ensures Chained(seq(|ps|, k requires 0 <= k < |ps| => ValuesFrom(s, ps[k])), vs)
  {
    var ms := seq(|ps|, k requires 0 <= k < |ps| => ValuesFrom(s, ps[k]));
    forall k {:trigger vs[k]} | 0 <= k < |vs|
      ensures ms[k + 1].Done? && ms[k] == Done([vs[k]] + ms[k + 1].value, ms[k + 1].pos)
    {
      EnumValuesStep(s, ps[k], vs[k], ps[k + 1]);
    }
  }

  /** Values read one after another are the enum's values, in declaration order, up to where
      no value follows. */
  lemma EnumValuesInOrder(s: string, ps: seq<nat>, vs: seq<EnumValue>)
    requires ReadsValues(s, ps, vs) && EnumValue(s, ps[|vs|]).Error?
    ensures EnumValues(s, ps[0]) == Done(vs, ps[|vs|])
  {
    var ms := seq(|ps|, k requires 0 <= k < |ps| => ValuesFrom(s, ps[k]));
    ValuesChain(s, ps, vs);
    assert ms[|vs|] == Done([], ps[|vs|]);
    ChainReads(ms, vs, ps[|vs|], 0);
    assert vs[0..] == vs;
  }

  /** `many0!(tag!(";"))`: the optional semicolons after a closing brace. */
  function Semicolons(s: string, i: nat): (j: nat)
    requires i <= |s|
    ensures i <= j <= |s|
    ensures forall k | i <= k < j :: s[k] == ';'
    ensures j == |s| || s[j] != ';'
    decreases |s| - i
  {
    if i < |s| && s[i] == ';' then Semicolons(s, i + 1) else i
  }

  /** `enumerator` (src/parser.rs:307-317): `enum NAME { values }`, then optional semicolons. */
  function Enumerator(s: string, i: nat): (r: Res<Enumeration>)
    requires i <= |s|
    ensures r.Done? ==> At(s, i, "enum") && i < r.pos <= |s|
    ensures r.Done? ==> Breaks1(s, i + 4).Done?
    ensures r.Done? ==> var name := Word(s, Breaks1(s, i + 4).pos);
      && EnumBody(s, Breaks(s, name.pos)).Done?
      && r.value == Enumeration(name.value, EnumBody(s, Breaks(s, name.pos)).value)
  {
    if !At(s, i, "enum") then Error
    else
      match Breaks1(s, i + 4)
      case Error => Error
      case Done(_, gap) =>
        var name := Word(s, gap);
        match EnumBody(s, Breaks(s, name.pos))
        case Error => Error
        case Done(values, close) => Done(Enumeration(name.value, values), Semicolons(s, Breaks(s, close)))
  }

  /** The braces of an enum: `{`, the values the value loop reads, `}`. */
  function EnumBody(s: string, o: nat): (r: Res<seq<EnumValue>>)
    requires o <= |s|
    ensures r.Done? ==> o < r.pos <= |s| && At(s, o, "{")
    ensures r.Done? ==> var values := EnumValues(s, Breaks(s, o + 1));
      && r.value == values.value && At(s, Breaks(s, values.pos), "}") && r.pos == Breaks(s, values.pos) + 1
  {
    if !At(s, o, "{") then Error
    else
      var values := EnumValues(s, Breaks(s, o + 1));
      var close := Breaks(s, values.pos);
      if !At(s, close, "}") then Error
      else Done(values.value, close + 1)
  }

  /** An enum ends after its `}`, the breaks after it and the run of stray `;`
      (src/parser.rs:311-312). */
  lemma EnumeratorEnd(s: string, i: nat)
    requires i <= |s| && Enumerator(s, i).Done?
    ensures i + 4 <= |s| && Breaks1(s, i + 4).Done?
    ensures var close := EnumBody(s, Breaks(s, Word(s, Breaks1(s, i + 4).pos).pos));
      close.Done? && Enumerator(s, i).pos == Semicolons(s, Breaks(s, close.pos))
  {
  }

  // ---------------------------------------------------------------------------------------
  // message (src/parser.rs:238-281)

  /** `message_event` (src/parser.rs:238-248): the alternatives in the order they are tried. A
      `message`, `enum` or `oneof` header is tried as a field first; it fails there at the
      missing `=`. */
  function MessageEvent(s: string, i: nat): (r: Res<MessageEvent>)
    requires i <= |s|
    ensures r.Done? ==> i < r.pos <= |s|
    decreases |s| - i, 2
  {
    var nums := ReservedNums(s, i);
    if nums.Done? then Done(ReservedNumsItem(nums.value), nums.pos)
    else
      var names := ReservedNames(s, i);
      if names.Done? then Done(ReservedNamesItem(names.value), names.pos)
      else
        var field := FieldGrammar.MessageField(s, i);
        if field.Done? then Done(FieldItem(field.value), field.pos)
        else NestedEvent(s, i)
  }

  /** The remaining alternatives of `message_event`: a nested message, an enum, a oneof, or a
      break that is ignored. */
  function NestedEvent(s: string, i: nat): (r: Res<MessageEvent>)
    requires i <= |s|
    ensures r.Done? ==> i < r.pos <= |s|
    decreases |s| - i, 1
  {
    var msg := Message(s, i);
    if msg.Done? then Done(NestedMessage(msg.value), msg.pos)
    else
      var en := Enumerator(s, i);
      if en.Done? then Done(NestedEnum(en.value), en.pos)
      else
        var o := OneOf(s, i);
        if o.Done? then Done(OneOfItem(o.value), o.pos)
        else
          var b :- Br(s, i);
          Done(IgnoredItem, b.pos)
  }

  /** The order `alt!` tries the items of a message body in: `reserved` numbers, `reserved`
      names, a field, and only then the remaining alternatives. */
  lemma MessageEventOrder(s: string, i: nat)
    requires i <= |s|
    ensures ReservedNums(s, i).Done? ==>
      MessageEvent(s, i) == Done(ReservedNumsItem(ReservedNums(s, i).value), ReservedNums(s, i).pos)
    ensures ReservedNums(s, i).Error? && ReservedNames(s, i).Done? ==>
      MessageEvent(s, i) == Done(ReservedNamesItem(ReservedNames(s, i).value), ReservedNames(s, i).pos)
    ensures ReservedNums(s, i).Error? && ReservedNames(s, i).Error? && FieldGrammar.MessageField(s, i).Done? ==>
      MessageEvent(s, i) == Done(FieldItem(FieldGrammar.MessageField(s, i).value), FieldGrammar.MessageField(s, i).pos)
    ensures ReservedNums(s, i).Error? && ReservedNames(s, i).Error? && FieldGrammar.MessageField(s, i).Error? ==>
      MessageEvent(s, i) == NestedEvent(s, i)
  {
  }

  /** The order of the remaining alternatives: a nested message, an enum, a oneof, and last a
      single break, which is read and ignored. */
  lemma NestedEventOrder(s: string, i: nat)
    requires i <= |s|
    ensures Message(s, i).Done? ==> NestedEvent(s, i) == Done(NestedMessage(Message(s, i).value), Message(s, i).pos)
    ensures Message(s, i).Error? && Enumerator(s, i).Done? ==>
      NestedEvent(s, i) == Done(NestedEnum(Enumerator(s, i).value), Enumerator(s, i).pos)
    ensures Message(s, i).Error? && Enumerator(s, i).Error? && OneOf(s, i).Done? ==>
      NestedEvent(s, i) == Done(OneOfItem(OneOf(s, i).value), OneOf(s, i).pos)
    ensures Message(s, i).Error? && Enumerator(s, i).Error? && OneOf(s, i).Error? ==>
      && (NestedEvent(s, i).Done? <==> Br(s, i).Done?)
      && (Br(s, i).Done? ==> NestedEvent(s, i) == Done(IgnoredItem, Br(s, i).pos))
  {
  }

  /** `many0!(message_event)`: events as long as one matches. */
  function MessageEvents(s: string, i: nat): (r: Res<seq<MessageEvent>>)
    requires i <= |s|
    ensures r.Done? && i <= r.pos <= |s|
    ensures MessageEvent(s, r.pos).Error?
    decreases |s| - i, 3
  {
    var e := MessageEvent(s, i);
    if e.Error? then Done([], i)
    else
      var more := MessageEvents(s, e.pos);
      Done([e.value] + more.value, more.pos)
  }

  /** `message_events` and `message` (src/parser.rs:249-281): `message NAME { events }`, then
      optional semicolons; the body's events are folded into the message. */
  function Message(s: string, i: nat): (r: Res<Message>)
    requires i <= |s|
    ensures r.Done? ==> At(s, i, "message") && i < r.pos <= |s|
    ensures r.Done? ==> Breaks1(s, i + 7).Done?
    ensures r.Done? ==> var name := Word(s, Breaks1(s, i + 7).pos);
      && MessageBody(s, Breaks(s, name.pos)).Done?
      && r.value == MessageOf(name.value, MessageBody(s, Breaks(s, name.pos)).value)
    decreases |s| - i, 0
  {
    if !At(s, i, "message") then Error
    else
      match Breaks1(s, i + 7)
      case Error => Error
      case Done(_, gap) =>
        var name := Word(s, gap);
        match MessageBody(s, Breaks(s, name.pos))
        case Error => Error
        case Done(events, close) => Done(MessageOf(name.value, events), Semicolons(s, Breaks(s, close)))
  }

  /** The braces of a message (src/parser.rs:252-254): `{`, the events the event loop reads, `}`. */
  function MessageBody(s: string, o: nat): (r: Res<seq<MessageEvent>>)
    requires o <= |s|
    ensures r.Done? ==> o < r.pos <= |s| && At(s, o, "{")
    ensures r.Done? ==> var events := MessageEvents(s, Breaks(s, o + 1));
      && r.value == events.value && At(s, Breaks(s, events.pos), "}") && r.pos == Breaks(s, events.pos) + 1
    decreases |s| - o, 4
  {
    if !At(s, o, "{") then Error
    else
      var events := MessageEvents(s, Breaks(s, o + 1));
      var close := Breaks(s, events.pos);
      if !At(s, close, "}") then Error
      else Done(events.value, close + 1)
  }

  /** A message ends after its `}`, the breaks after it and the run of stray `;`
      (src/parser.rs:253-254). */
  lemma MessageEnd(s: string, i: nat)
    requires i <= |s| && Message(s, i).Done?
    ensures i + 7 <= |s| && Breaks1(s, i + 7).Done?
    ensures var close := MessageBody(s, Breaks(s, Word(s, Breaks1(s, i + 7).pos).pos));
      close.Done? && Message(s, i).pos == Semicolons(s, Breaks(s, close.pos))
  {
  }

  /** The events `es` are written one after another from `p`, and the last of them ends at `e`. */
  predicate EventsAt(s: string, p: nat, es: seq<MessageEvent>, e: nat)
    decreases |es|
  {
    && p <= |s| && |es| > 0
    && MessageEvent(s, p).Done? && MessageEvent(s, p).value == es[0]
    && var q := MessageEvent(s, p).pos;
       if |es| == 1 then q == e else EventsAt(s, q, es[1..], e)
  }

  /** One more turn of the event loop: an event read up to `q` goes in front of the events read
      from `q` on. */
  lemma MessageEventsStep(s: string, p: nat, v: MessageEvent, q: nat)
    requires p <= |s| && MessageEvent(s, p) == Done(v, q)
    ensures MessageEvents(s, p) == Done([v] + MessageEvents(s, q).value, MessageEvents(s, q).pos)
  {
  }

  lemma MessageEventsEnd(s: string, e: nat)
    requires e <= |s| && MessageEvent(s, e).Error?
    ensures MessageEvents(s, e) == Done([], e)
  {
  }

  /** Events written one after another are the body's events, in the written order, up to where
      no event follows. */
  lemma {:induction false} MessageEventsInOrder(s: string, p: nat, es: seq<MessageEvent>, e: nat)
    requires EventsAt(s, p, es, e) && e <= |s| && MessageEvent(s, e).Error?
    ensures MessageEvents(s, p) == Done(es, e)
    decreases |es|, 1
  {
    MessageEventsStep(s, p, es[0], MessageEvent(s, p).pos);
    EventsAfterFirst(s, p, es, e);
    assert [es[0]] + es[1..] == es;
  }

  /** What the event loop reads after the first of the events written from `p`: the others. */
  lemma {:induction false} EventsAfterFirst(s: string, p: nat, es: seq<MessageEvent>, e: nat)
    requires EventsAt(s, p, es, e) && e <= |s| && MessageEvent(s, e).Error?
    ensures MessageEvents(s, MessageEvent(s, p).pos) == Done(es[1..], e)
    decreases |es|, 0
  {
    var q := MessageEvent(s, p).pos;
    if |es| == 1 {
      MessageEventsEnd(s, q);
      assert es[1..] == [];
    } else {
      MessageEventsInOrder(s, q, es[1..], e);
    }
  }
}
