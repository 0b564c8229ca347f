/** The top level of a `.proto` file (src/parser.rs:55-80, 319-370): the statements a file is
    made of, the event loop over them, and the fold of the events into a file descriptor. */
module FileGrammar {
  import opened Descriptor
  import opened Lexer
  import opened Events
  import Aggregates

  // ---------------------------------------------------------------------------------------
  // Statements

  /** `syntax` (src/parser.rs:55-64): `syntax = "proto2";` or `syntax = "proto3";`. */
  function SyntaxDecl(s: string, i: nat): (r: Res<Syntax>)
    requires i <= |s|
    ensures r.Done? ==> At(s, i, "syntax") && i < r.pos <= |s|
  {
    var kw :- Tag(s, i, "syntax");
    var eq :- Tag(s, Breaks(s, kw.pos), "=");
    var proto :- SyntaxName(s, Breaks(s, eq.pos));
    var semi :- Tag(s, Breaks(s, proto.pos), ";");
    Done(proto.value, semi.pos)
  }

  /** The version `syntax` returns is the quoted name after `=`, which follows the keyword and
      its breaks; the statement ends at the `;` after the name and its breaks. */
  lemma SyntaxValue(s: string, i: nat)
    requires i <= |s| && SyntaxDecl(s, i).Done?
    ensures i + 6 <= |s| && At(s, Breaks(s, i + 6), "=")
    ensures var name := SyntaxName(s, Breaks(s, Breaks(s, i + 6) + 1));
      && name.Done? && SyntaxDecl(s, i).value == name.value
      && At(s, Breaks(s, name.pos), ";") && SyntaxDecl(s, i).pos == Breaks(s, name.pos) + 1
  {
    var kw := Tag(s, i, "syntax");
    assert kw == Done((), i + 6);
    var eq := Tag(s, Breaks(s, i + 6), "=");
    assert eq.Done?;
    var proto := SyntaxName(s, Breaks(s, eq.pos));
    assert proto.Done?;
    var semi := Tag(s, Breaks(s, proto.pos), ";");
    assert semi.Done?;
  }

  /** The quoted version name: `"proto2"` first, then `"proto3"`. */
  function SyntaxName(s: string, i: nat): (r: Res<Syntax>)
    requires i <= |s|
    ensures r.Done? <==> At(s, i, "\"proto2\"") || At(s, i, "\"proto3\"")
    ensures r.Done? ==> r.pos == i + 8 <= |s|
    ensures r == Done(Proto2, i + 8) <==> At(s, i, "\"proto2\"")
  {
    if At(s, i, "\"proto2\"") then Done(Proto2, i + 8)
    else if At(s, i, "\"proto3\"") then Done(Proto3, i + 8)
    else Error
  }

  /** `import` (src/parser.rs:66-73): `import "path";`, the path running to the next quote. */
  function Import(s: string, i: nat): (r: Res<string>)
    requires i <= |s|
    ensures r.Done? ==> At(s, i, "import") && i < r.pos <= |s|
    ensures r.Done? ==> forall k | 0 <= k < |r.value| :: r.value[k] != '"'
  {
    var kw :- Tag(s, i, "import");
    var gap :- Breaks1(s, kw.pos);
    var path :- QuotedPath(s, gap.pos);
    var semi :- Tag(s, Breaks(s, path.pos), ";");
    Done(path.value, semi.pos)
  }

  /** The quoted path of an import (src/parser.rs:69-71): a quote, the text up to the next quote,
      and that quote. */
  function QuotedPath(s: string, i: nat): (r: Res<string>)
    requires i <= |s|
    ensures r.Done? ==> At(s, i, "\"") && i + 2 <= r.pos <= |s| && At(s, r.pos - 1, "\"")
    ensures r.Done? ==> forall k | 0 <= k < |r.value| :: r.value[k] != '"'
  {
    var open :- Tag(s, i, "\"");
    var path :- TakeUntil(s, open.pos, "\"");
    // the closing quote is where `take_until!` stopped, so its tag always matches
    QuoteFree(s, open.pos, path.pos);
    Done(path.value, path.pos + 1)
  }

  /** After an opening quote the path is always read: it is what `take_until!` reads, and the
      closing quote stands where `take_until!` stopped. */
  lemma QuotedPathTakeUntil(s: string, i: nat)
    requires i <= |s|
    ensures QuotedPath(s, i).Done? <==> At(s, i, "\"") && TakeUntil(s, i + 1, "\"").Done?
    ensures QuotedPath(s, i).Done? ==>
      var path := TakeUntil(s, i + 1, "\"");
      QuotedPath(s, i).value == path.value && QuotedPath(s, i).pos == path.pos + 1
  {
    if At(s, i, "\"") {
      var open := Tag(s, i, "\"");
      assert open == Done((), i + 1);
    }
  }

  /** The path is what `take_until!` reads after the opening quote, which follows `import` and
      its breaks: the text up to the next quote (see `Lexer.TakeUntil`). */
  lemma ImportPath(s: string, i: nat)
    requires i <= |s| && Import(s, i).Done?
    ensures i + 6 <= |s| && Breaks1(s, i + 6).Done? && At(s, Breaks1(s, i + 6).pos, "\"")
    ensures var path := TakeUntil(s, Breaks1(s, i + 6).pos + 1, "\"");
      path.Done? && Import(s, i).value == path.value
  {
    var kw := Tag(s, i, "import");
    assert kw == Done((), i + 6);
    QuotedPathTakeUntil(s, Breaks1(s, i + 6).pos);
  }

  /** An import ends just after the `;` that follows the closing quote and its breaks
      (src/parser.rs:71); the closing quote ends the quoted path (see `QuotedPathTakeUntil`). */
  lemma ImportEnd(s: string, i: nat)
    requires i <= |s| && Import(s, i).Done?
    ensures i + 6 <= |s| && Breaks1(s, i + 6).Done?
    ensures var path := QuotedPath(s, Breaks1(s, i + 6).pos);
      path.Done? && Import(s, i).pos == Breaks(s, path.pos) + 1
  {
    var kw := Tag(s, i, "import");
    assert kw == Done((), i + 6);
  }

  /** Text in which no quote starts holds no quote. */
  lemma QuoteFree(s: string, a: nat, b: nat)
    requires a <= b <= |s| && forall k | a <= k < b :: !At(s, k, "\"")
    ensures forall k | 0 <= k < b - a :: s[a..b][k] != '"'
  {
    forall k | 0 <= k < b - a ensures s[a..b][k] != '"' {
      AtSingle(s, a + k, '"');
    }
  }

  /** `package` (src/parser.rs:75-80): `package NAME;`. */
  function Package(s: string, i: nat): (r: Res<string>)
    requires i <= |s|
    ensures r.Done? ==> At(s, i, "package") && i < r.pos <= |s| && IsWord(r.value)
  {
    var kw :- Tag(s, i, "package");
    var gap :- Breaks1(s, kw.pos);
    var name := Word(s, gap.pos);
    WordChars(s, gap.pos);
    var semi :- Tag(s, Breaks(s, name.pos), ";");
    Done(name.value, semi.pos)
  }

  /** The package name is the word after `package` and its breaks, and a `;` follows it and its
      breaks. */
  lemma PackageName(s: string, i: nat)
    requires i <= |s| && Package(s, i).Done?
    ensures i + 7 <= |s| && Breaks1(s, i + 7).Done?
    ensures var name := Word(s, Breaks1(s, i + 7).pos);
      && Package(s, i).value == name.value && At(s, Breaks(s, name.pos), ";")
  {
  }

  /** A package statement ends just after the `;` that follows the name and its breaks
      (src/parser.rs:78). */
  lemma PackageEnd(s: string, i: nat)
    requires i <= |s| && Package(s, i).Done?
    ensures i + 7 <= |s| && Breaks1(s, i + 7).Done?
    ensures Package(s, i).pos == Breaks(s, Word(s, Breaks1(s, i + 7).pos).pos) + 1
  {
    PackageName(s, i);
  }

  /** `option_ignore` (src/parser.rs:319-322): `option`, then everything up to and including the
      next `;`. */
  function OptionIgnore(s: string, i: nat): (r: Res<()>)
    requires i <= |s|
    ensures r.Done? ==> At(s, i, "option") && i < r.pos <= |s| && At(s, r.pos - 1, ";")
  {
    var kw :- Tag(s, i, "option");
    var gap :- Breaks1(s, kw.pos);
    var rest :- TakeUntilAndConsume(s, gap.pos, ";");
    rest
  }

  /** `service_ignore` (src/parser.rs:324-330): `service NAME {`, then everything up to and
      including the first `}`, nested braces or not. */
  function ServiceIgnore(s: string, i: nat): (r: Res<()>)
    requires i <= |s|
    ensures r.Done? ==> At(s, i, "service") && i < r.pos <= |s| && At(s, r.pos - 1, "}")
  {
    var kw :- Tag(s, i, "service");
    var gap :- Breaks1(s, kw.pos);
    var name := Word(s, gap.pos);
    var open :- Tag(s, Breaks(s, name.pos), "{");
    var rest :- TakeUntilAndConsume(s, open.pos, "}");
    rest
  }

  /** An ignored option ends at the first `;` after the keyword and its breaks. */
  lemma OptionFirstSemicolon(s: string, i: nat)
    requires i <= |s| && OptionIgnore(s, i).Done?
    ensures i + 6 <= |s| && Breaks1(s, i + 6).Done?
    ensures forall k | Breaks1(s, i + 6).pos <= k < OptionIgnore(s, i).pos - 1 :: s[k] != ';'
  {
    CharFree(s, Breaks1(s, i + 6).pos, OptionIgnore(s, i).pos - 1, ';');
  }

  /** An ignored service ends at the first `}` after its `{`, even when a nested block opened
      in between. */
  lemma ServiceFirstClose(s: string, i: nat)
    requires i <= |s| && ServiceIgnore(s, i).Done?
    ensures i + 7 <= |s| && Breaks1(s, i + 7).Done?
    ensures var open := Breaks(s, Word(s, Breaks1(s, i + 7).pos).pos);
      && At(s, open, "{") && open + 1 <= ServiceIgnore(s, i).pos - 1
      && forall k | open + 1 <= k < ServiceIgnore(s, i).pos - 1 :: s[k] != '}'
  {
    var kw := Tag(s, i, "service");
    assert kw == Done((), i + 7);
    var gap := Breaks1(s, i + 7);
    assert gap.Done?;
    var open := Breaks(s, Word(s, gap.pos).pos);
    var brace := Tag(s, open, "{");
    assert brace == Done((), open + 1);
    var rest := TakeUntilAndConsume(s, open + 1, "}");
    assert rest.Done? && ServiceIgnore(s, i).pos == rest.pos;
    CharFree(s, open + 1, rest.pos - 1, '}');
  }

  // ---------------------------------------------------------------------------------------
  // Events and the file

  /** `event` (src/parser.rs:342-353): the first statement that matches, in the order syntax,
      import, package, message, enum, extend, option, service, and a break that is ignored. */
  function Event(s: string, i: nat): (r: Res<Event>)
    requires i <= |s|
    ensures r.Done? ==> i < r.pos <= |s|
  {
    var syntax := SyntaxDecl(s, i);
    if syntax.Done? then Done(SyntaxStmt(syntax.value), syntax.pos)
    else
      var imp := Import(s, i);
      if imp.Done? then Done(ImportStmt(imp.value), imp.pos)
      else
        var pkg := Package(s, i);
        if pkg.Done? then Done(PackageStmt(pkg.value), pkg.pos)
        else Definition(s, i)
  }

  /** The remaining alternatives of `event`: a message, an enum or an `extend` block, then the
      ignored statements and breaks. */
  function Definition(s: string, i: nat): (r: Res<Event>)
    requires i <= |s|
    ensures r.Done? ==> i < r.pos <= |s|
  {
    var msg := Aggregates.Message(s, i);
    if msg.Done? then Done(MessageDef(msg.value), msg.pos)
    else
      var en := Aggregates.Enumerator(s, i);
      if en.Done? then Done(EnumDef(en.value), en.pos)
      else
        var ext := Aggregates.Extensions(s, i);
        if ext.Done? then Done(ExtendBlock(ext.value), ext.pos)
        else Ignorable(s, i)
  }

  /** `option_ignore`, `service_ignore` or `br`: read and dropped. */
  function Ignorable(s: string, i: nat): (r: Res<Event>)
    requires i <= |s|
    ensures r.Done? ==> i < r.pos <= |s| && r.value == Ignored
  {
    var option := OptionIgnore(s, i);
    if option.Done? then Done(Ignored, option.pos)
    else
      var service := ServiceIgnore(s, i);
      if service.Done? then Done(Ignored, service.pos)
      else
        var b :- Br(s, i);
        Done(Ignored, b.pos)
  }

  /** The order `alt!` tries the statements in: `syntax`, `import`, `package`, and only then the
      definitions; the first that matches is the event. */
  lemma EventOrder(s: string, i: nat)
    requires i <= |s|
    ensures SyntaxDecl(s, i).Done? ==>
      Event(s, i) == Done(SyntaxStmt(SyntaxDecl(s, i).value), SyntaxDecl(s, i).pos)
    ensures SyntaxDecl(s, i).Error? && Import(s, i).Done? ==>
      Event(s, i) == Done(ImportStmt(Import(s, i).value), Import(s, i).pos)
    ensures SyntaxDecl(s, i).Error? && Import(s, i).Error? && Package(s, i).Done? ==>
      Event(s, i) == Done(PackageStmt(Package(s, i).value), Package(s, i).pos)
    ensures SyntaxDecl(s, i).Error? && Import(s, i).Error? && Package(s, i).Error? ==>
      Event(s, i) == Definition(s, i)
  {
  }

  /** The order of the definitions: a message, an enum, an `extend` block, and only then the
      ignored statements and breaks. */
  lemma DefinitionOrder(s: string, i: nat)
    requires i <= |s|
    ensures Aggregates.Message(s, i).Done? ==>
      Definition(s, i) == Done(MessageDef(Aggregates.Message(s, i).value), Aggregates.Message(s, i).pos)
    ensures Aggregates.Message(s, i).Error? && Aggregates.Enumerator(s, i).Done? ==>
      Definition(s, i) == Done(EnumDef(Aggregates.Enumerator(s, i).value), Aggregates.Enumerator(s, i).pos)
    ensures Aggregates.Message(s, i).Error? && Aggregates.Enumerator(s, i).Error? && Aggregates.Extensions(s, i).Done? ==>
      Definition(s, i) == Done(ExtendBlock(Aggregates.Extensions(s, i).value), Aggregates.Extensions(s, i).pos)
    ensures Aggregates.Message(s, i).Error? && Aggregates.Enumerator(s, i).Error? && Aggregates.Extensions(s, i).Error? ==>
      Definition(s, i) == Ignorable(s, i)
  {
  }

  /** An ignored statement or break is read when an option, a service or a break matches, and
      it ends where the first of them to match ends. */
  lemma IgnorableOrder(s: string, i: nat)
    requires i <= |s|
    ensures Ignorable(s, i).Done? <==> OptionIgnore(s, i).Done? || ServiceIgnore(s, i).Done? || Br(s, i).Done?
    ensures OptionIgnore(s, i).Done? ==> Ignorable(s, i).pos == OptionIgnore(s, i).pos
    ensures OptionIgnore(s, i).Error? && ServiceIgnore(s, i).Done? ==> Ignorable(s, i).pos == ServiceIgnore(s, i).pos
    ensures OptionIgnore(s, i).Error? && ServiceIgnore(s, i).Error? && Br(s, i).Done? ==>
      Ignorable(s, i).pos == Br(s, i).pos
  {
  }

  /** `many0!(event)`: events as long as one matches; the loop stops at the first position where
      none does. */
  function FileEvents(s: string, i: nat): (r: Res<seq<Event>>)
    requires i <= |s|
    ensures r.Done? && i <= r.pos <= |s|
    ensures Event(s, r.pos).Error?
    decreases |s| - i
  {
    var e := Event(s, i);
    if e.Error? then Done([], i)
    else
      var more := FileEvents(s, e.pos);
      Done([e.value] + more.value, more.pos)
  }

  /** `file_descriptor` (src/parser.rs:355-370) as `FileDescriptor::parse` uses it: the events
      of the whole input, folded into a descriptor; input the events leave unread is an error. */
  function ParseFile(s: string): (r: Res<FileDescriptor>)
    ensures r.Done? <==> FileEvents(s, 0).pos == |s|
    ensures r.Done? ==> r.pos == |s| && r.value == FileSpec(FileEvents(s, 0).value)
  {
    var events := FileEvents(s, 0);
    FileOfSpec(events.value);
    if events.pos == |s| then Done(FileOf(events.value), |s|) else Error
  }

  // ---------------------------------------------------------------------------------------
  // Properties

  /** A character that starts no statement and no break: not blank, not `/`, and none of the
      first letters of `syntax`, `import`, `package`, `message`, `enum`, `extend`, `option` and
      `service`. */
  predicate Stray(c: char) {
    !IsSpace(c) && c != '/' && c != 's' && c != 'i' && c != 'p' && c != 'm' && c != 'e' && c != 'o'
  }

  /** No statement starts at a stray character. */
  lemma EventFailsAtStray(s: string, p: nat)
    requires p < |s| && Stray(s[p])
    ensures Event(s, p).Error?
  {
    KeywordsFail(s, p);
    IgnorableFails(s, p);
  }

  /** None of the first six alternatives matches at a stray character. */
  lemma KeywordsFail(s: string, p: nat)
    requires p < |s| && Stray(s[p])
    ensures SyntaxDecl(s, p).Error? && Import(s, p).Error? && Package(s, p).Error?
    ensures Aggregates.Message(s, p).Error? && Aggregates.Enumerator(s, p).Error?
    ensures Aggregates.Extensions(s, p).Error?
  {
    FirstLetter(s, p, "syntax");
    FirstLetter(s, p, "import");
    FirstLetter(s, p, "package");
    FirstLetter(s, p, "message");
    FirstLetter(s, p, "enum");
    FirstLetter(s, p, "extend");
  }

  /** Neither ignored statement nor a break matches at a stray character. */
  lemma IgnorableFails(s: string, p: nat)
    requires p < |s| && Stray(s[p])
    ensures Ignorable(s, p).Error?
  {
    FirstLetter(s, p, "option");
    FirstLetter(s, p, "service");
  }

  /** A keyword is at `p` only if its first letter is. */
  lemma FirstLetter(s: string, p: nat, kw: string)
    requires |kw| > 0
    ensures At(s, p, kw) ==> p < |s| && s[p] == kw[0]
  {
    if At(s, p, kw) {
      AtChar(s, p, kw, 0);
    }
  }

  /** One more turn of the event loop: an event read up to `j` goes in front of the events read
      from `j` on. */
  lemma FileEventsStep(s: string, i: nat, e: Event, j: nat)
    requires i < j <= |s| && Event(s, i) == Done(e, j)
    ensures FileEvents(s, i) == Done([e] + FileEvents(s, j).value, FileEvents(s, j).pos)
  {
  }

  /** The statements `es[k]` are read one after another, from `ps[k]` to `ps[k + 1]`. */
  predicate ReadsEvents(s: string, ps: seq<nat>, es: seq<Event>) {
    && |ps| == |es| + 1
    && (forall k | 0 <= k < |ps| :: ps[k] <= |s|)
    && forall k {:trigger es[k]} | 0 <= k < |es| :: ps[k] < ps[k + 1] && Event(s, ps[k]) == Done(es[k], ps[k + 1])
  }

  /** Statements read one after another, less the first, are still read one after another. */
  lemma ReadsEventsTail(s: string, ps: seq<nat>, es: seq<Event>)
    requires ReadsEvents(s, ps, es) && |es| > 0
    ensures ReadsEvents(s, ps[1..], es[1..])
  {
    forall k | 0 <= k < |es| - 1
      ensures ps[1..][k] < ps[1..][k + 1] && Event(s, ps[1..][k]) == Done(es[1..][k], ps[1..][k + 1])
    {
      assert es[1..][k] == es[k + 1];
    }
  }

  /** Statements read one after another are the events of the loop, in order, up to where the
      loop stops. */
  lemma {:induction false} FileEventsInOrder(s: string, ps: seq<nat>, es: seq<Event>)
    requires ReadsEvents(s, ps, es) && Event(s, ps[|es|]).Error?
    ensures FileEvents(s, ps[0]) == Done(es, ps[|es|])
    decreases |es|, 1
  {
    if |es| > 0 {
      assert Event(s, ps[0]) == Done(es[0], ps[1]);
      FileEventsStep(s, ps[0], es[0], ps[1]);
      EventsAfterFirst(s, ps, es);
      assert [es[0]] + es[1..] == es;
    }
  }

  /** What the event loop reads after the first of the statements: the others. */
  lemma {:induction false} EventsAfterFirst(s: string, ps: seq<nat>, es: seq<Event>)
    requires ReadsEvents(s, ps, es) && |es| > 0 && Event(s, ps[|es|]).Error?
    ensures FileEvents(s, ps[1]) == Done(es[1..], ps[|es|])
    decreases |es|, 0
  {
    var rest := ps[1..];
    assert rest[0] == ps[1] && rest[|es| - 1] == ps[|es|];
    ReadsEventsTail(s, ps, es);
    FileEventsInOrder(s, rest, es[1..]);
  }

  /** A file read as statements from the start to the end parses, and its descriptor is the
      fold of those statements. */
  lemma FileReads(s: string, ps: seq<nat>, es: seq<Event>)
    requires ReadsEvents(s, ps, es) && ps[0] == 0 && ps[|es|] == |s|
    ensures ParseFile(s) == Done(FileOf(es), |s|)
  {
    assert Event(s, |s|).Error?;
    FileEventsInOrder(s, ps, es);
  }

  /** A file whose statements, read from the start, are followed by a stray character does not
      parse: the trailing text is not dropped. */
  lemma StrayTextRejected(s: string, ps: seq<nat>, es: seq<Event>)
    requires ReadsEvents(s, ps, es) && ps[0] == 0 && ps[|es|] < |s| && Stray(s[ps[|es|]])
    ensures ParseFile(s).Error?
  {
    EventFailsAtStray(s, ps[|es|]);
    FileEventsInOrder(s, ps, es);
  }
}
