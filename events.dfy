/** The events the grammar produces and the two folds that turn them into records: a message
    body into a `Message` (src/parser.rs:262-279) and a whole file into a `FileDescriptor`
    (src/parser.rs:356-370). Each fold is a loop over the events that updates a record built
    from the defaults; `MessageOf` and `FileOf` state what the loops compute, and the lemmas
    below characterise them field by field against independent definitions. */
module Events {
  import opened Descriptor

  /** `MessageEvent` (src/parser.rs:228-236): one item of a message body. */
  datatype MessageEvent =
    | NestedMessage(message: Message)
    | NestedEnum(enumeration: Enumeration)
    | FieldItem(field: Field)
    | ReservedNumsItem(ranges: seq<Range>)
    | ReservedNamesItem(names: seq<string>)
    | OneOfItem(oneof: OneOf)
    | IgnoredItem

  /** `Event` (src/parser.rs:332-340): one top-level statement of a file. */
  datatype Event =
    | SyntaxStmt(syntax: Syntax)
    | ImportStmt(path: string)
    | PackageStmt(package: string)
    | MessageDef(message: Message)
    | EnumDef(enumeration: Enumeration)
    | ExtendBlock(extensions: seq<Extension>)
    | Ignored

  // ---------------------------------------------------------------------------------------
  // Reference definitions, read from the front: what a sequence of events contributes.

  /** Everything `sel` picks out of the events, concatenated in order. */
  function Collect<E, T>(events: seq<E>, sel: E -> seq<T>): (r: seq<T>)
    ensures events == [] ==> r == []
  {
    if events == [] then [] else sel(events[0]) + Collect(events[1..], sel)
  }

  /** What `sel` picks out of the last event that has something to give, if any. */
  function Latest<E, T>(events: seq<E>, sel: E -> Option<T>): (r: Option<T>)
    ensures r.None? <==> forall k | 0 <= k < |events| :: sel(events[k]).None?
  {
    if events == [] then None
    else
      var later := Latest(events[1..], sel);
      if later.Some? then later
      else
        assert forall k | 1 <= k < |events| :: sel(events[k]).None? by {
          forall k | 1 <= k < |events| ensures sel(events[k]).None? {
            assert events[1..][k - 1] == events[k];
          }
        }
        sel(events[0])
  }

  lemma {:induction false} CollectAppend<E, T>(a: seq<E>, b: seq<E>, sel: E -> seq<T>)
    ensures Collect(a + b, sel) == Collect(a, sel) + Collect(b, sel)
    decreases |a|
  {
    if a != [] {
      assert (a + b)[1..] == a[1..] + b;
      CollectAppend(a[1..], b, sel);
    } else {
      assert a + b == b;
    }
  }

  lemma CollectSnoc<E, T>(a: seq<E>, e: E, sel: E -> seq<T>)
    ensures Collect(a + [e], sel) == Collect(a, sel) + sel(e)
  {
    CollectAppend(a, [e], sel);
    var tail: seq<E> := [e][1..];
    assert tail == [];
  }

  /** A later event with something to give overrides everything before it. */
  lemma {:induction false} LatestAppend<E, T>(a: seq<E>, b: seq<E>, sel: E -> Option<T>)
    ensures Latest(a + b, sel) == if Latest(b, sel).Some? then Latest(b, sel) else Latest(a, sel)
    decreases |a|
  {
    if a == [] {
      assert a + b == b;
    } else {
      assert (a + b)[1..] == a[1..] + b;
      LatestAppend(a[1..], b, sel);
    }
  }

  lemma LatestSnoc<E, T>(a: seq<E>, e: E, sel: E -> Option<T>)
    ensures Latest(a + [e], sel) == if sel(e).Some? then sel(e) else Latest(a, sel)
  {
    LatestAppend(a, [e], sel);
    var tail: seq<E> := [e][1..];
    assert tail == [];
  }

  // ---------------------------------------------------------------------------------------
  // The message fold (src/parser.rs:262-279).

  function FieldsIn(e: MessageEvent): seq<Field> {
    if e.FieldItem? then [e.field] else []
  }

  function OneOfsIn(e: MessageEvent): seq<OneOf> {
    if e.OneOfItem? then [e.oneof] else []
  }

  function MessagesIn(e: MessageEvent): seq<Message> {
    if e.NestedMessage? then [e.message] else []
  }

  function EnumsIn(e: MessageEvent): seq<Enumeration> {
    if e.NestedEnum? then [e.enumeration] else []
  }

  function NumsIn(e: MessageEvent): Option<seq<Range>> {
    if e.ReservedNumsItem? then Some(e.ranges) else None
  }

  function NamesIn(e: MessageEvent): Option<seq<string>> {
    if e.ReservedNamesItem? then Some(e.names) else None
  }

  /** One turn of the loop body (src/parser.rs:267-276). */
  function ApplyMessageEvent(msg: Message, e: MessageEvent): Message {
    match e
    case FieldItem(f) => msg.(fields := msg.fields + [f])
    case ReservedNumsItem(r) => msg.(reservedNums := r)
    case ReservedNamesItem(r) => msg.(reservedNames := r)
    case NestedMessage(m) => msg.(messages := msg.messages + [m])
    case NestedEnum(en) => msg.(enums := msg.enums + [en])
    case OneOfItem(o) => msg.(oneofs := msg.oneofs + [o])
    case IgnoredItem => msg
  }

  /** The message the loop returns: the events applied in order to an empty message. */
  function MessageOf(name: string, events: seq<MessageEvent>): Message
    decreases |events|
  {
    if events == [] then EmptyMessage(name)
    else ApplyMessageEvent(MessageOf(name, events[..|events| - 1]), events[|events| - 1])
  }

  /** The loop of `message` (src/parser.rs:262-279), updating a mutable record in place. */
  method BuildMessage(name: string, events: seq<MessageEvent>) returns (msg: Message)
    ensures msg == MessageOf(name, events)
  {
    msg := EmptyMessage(name);
    for i := 0 to |events|
      invariant msg == MessageOf(name, events[..i])
    {
      match events[i] {
        case FieldItem(f) => msg := msg.(fields := msg.fields + [f]);
        case ReservedNumsItem(r) => msg := msg.(reservedNums := r);
        case ReservedNamesItem(r) => msg := msg.(reservedNames := r);
        case NestedMessage(m) => msg := msg.(messages := msg.messages + [m]);
        case NestedEnum(en) => msg := msg.(enums := msg.enums + [en]);
        case OneOfItem(o) => msg := msg.(oneofs := msg.oneofs + [o]);
        case IgnoredItem =>
      }
      assert events[..i + 1][..i] == events[..i];
    }
    assert events[..|events|] == events;
  }

  /** The message described member by member: fields, oneofs, nested messages and nested
      enums are the corresponding events in order; each `reserved` list is the one given by the
      last statement of its kind (empty when there is none). */
  function MessageSpec(name: string, events: seq<MessageEvent>): Message {
    Message(
      name,
      Collect(events, FieldsIn),
      Collect(events, OneOfsIn),
      Latest(events, NumsIn).GetOr([]),
      Latest(events, NamesIn).GetOr([]),
      Collect(events, MessagesIn),
      Collect(events, EnumsIn))
  }

  /** The member-by-member description takes one more event the way the loop body does. */
  lemma MessageSpecSnoc(name: string, front: seq<MessageEvent>, e: MessageEvent)
    ensures MessageSpec(name, front + [e]) == ApplyMessageEvent(MessageSpec(name, front), e)
  {
    CollectSnoc(front, e, FieldsIn);
    CollectSnoc(front, e, OneOfsIn);
    CollectSnoc(front, e, MessagesIn);
    CollectSnoc(front, e, EnumsIn);
    LatestSnoc(front, e, NumsIn);
    LatestSnoc(front, e, NamesIn);
  }

  /** The fold agrees with the member-by-member description. In particular the fields of a
      oneof appear only inside its `OneOf`, never among the message's own fields. */
  lemma {:induction false} MessageOfSpec(name: string, events: seq<MessageEvent>)
    ensures MessageOf(name, events) == MessageSpec(name, events)
    decreases |events|
  {
    if events != [] {
      var front, e := events[..|events| - 1], events[|events| - 1];
      assert events == front + [e];
      MessageOfSpec(name, front);
      MessageSpecSnoc(name, front, e);
    }
  }

  /** Fields, oneofs, nested messages and nested enums accumulate: the events of two stretches
      of a body contribute one after the other. */
  lemma MessageAppends(name: string, a: seq<MessageEvent>, b: seq<MessageEvent>)
    ensures MessageOf(name, a + b).fields == MessageOf(name, a).fields + MessageOf(name, b).fields
    ensures MessageOf(name, a + b).oneofs == MessageOf(name, a).oneofs + MessageOf(name, b).oneofs
    ensures MessageOf(name, a + b).messages == MessageOf(name, a).messages + MessageOf(name, b).messages
    ensures MessageOf(name, a + b).enums == MessageOf(name, a).enums + MessageOf(name, b).enums
  {
    MessageOfSpec(name, a);
    MessageOfSpec(name, b);
    MessageOfSpec(name, a + b);
    CollectAppend(a, b, FieldsIn);
    CollectAppend(a, b, OneOfsIn);
    CollectAppend(a, b, MessagesIn);
    CollectAppend(a, b, EnumsIn);
  }

  /** A oneof goes, whole, into the message's oneofs; its members never join the message's own
      fields. */
  lemma OneOfKeepsFields(name: string, a: seq<MessageEvent>, o: OneOf, b: seq<MessageEvent>)
    ensures MessageOf(name, a + [OneOfItem(o)] + b).fields == MessageOf(name, a + b).fields
    ensures MessageOf(name, a + [OneOfItem(o)] + b).oneofs == MessageOf(name, a).oneofs + [o] + MessageOf(name, b).oneofs
  {
    MessageAppends(name, a + [OneOfItem(o)], b);
    MessageAppends(name, a, [OneOfItem(o)]);
    MessageAppends(name, a, b);
    assert MessageOf(name, [OneOfItem(o)]) == EmptyMessage(name).(oneofs := [o]) by {
      assert [OneOfItem(o)][..0] == [];
    }
  }

  /** A later `reserved` statement replaces what an earlier one of the same kind set: the
      numbers of the last `reserved` number list are the message's, whatever came before. */
  lemma ReservedNumsLastWins(name: string, a: seq<MessageEvent>, r: seq<Range>, b: seq<MessageEvent>)
    requires forall k | 0 <= k < |b| :: !b[k].ReservedNumsItem?
    ensures MessageOf(name, a + [ReservedNumsItem(r)] + b).reservedNums == r
  {
    var events := a + [ReservedNumsItem(r)] + b;
    MessageOfSpec(name, events);
    LatestAppend(a + [ReservedNumsItem(r)], b, NumsIn);
    LatestSnoc(a, ReservedNumsItem(r), NumsIn);
    assert forall k | 0 <= k < |b| :: NumsIn(b[k]).None?;
  }

  lemma ReservedNamesLastWins(name: string, a: seq<MessageEvent>, r: seq<string>, b: seq<MessageEvent>)
    requires forall k | 0 <= k < |b| :: !b[k].ReservedNamesItem?
    ensures MessageOf(name, a + [ReservedNamesItem(r)] + b).reservedNames == r
  {
    var events := a + [ReservedNamesItem(r)] + b;
    MessageOfSpec(name, events);
    LatestAppend(a + [ReservedNamesItem(r)], b, NamesIn);
    LatestSnoc(a, ReservedNamesItem(r), NamesIn);
    assert forall k | 0 <= k < |b| :: NamesIn(b[k]).None?;
  }

  /** A message body with no `reserved` statement of a kind keeps that list empty. */
  lemma ReservedDefaultsEmpty(name: string, events: seq<MessageEvent>)
    requires forall k | 0 <= k < |events| :: !events[k].ReservedNumsItem? && !events[k].ReservedNamesItem?
    ensures MessageOf(name, events).reservedNums == [] && MessageOf(name, events).reservedNames == []
  {
    MessageOfSpec(name, events);
    assert forall k | 0 <= k < |events| :: NumsIn(events[k]).None? && NamesIn(events[k]).None?;
  }

  /** An ignored item (a stray break) changes nothing, wherever it stands. */
  lemma {:induction false} IgnoredItemNeutral(name: string, a: seq<MessageEvent>, b: seq<MessageEvent>)
    ensures MessageOf(name, a + [IgnoredItem] + b) == MessageOf(name, a + b)
    decreases |b|
  {
    if b == [] {
      assert a + [IgnoredItem] + b == a + [IgnoredItem];
      assert (a + [IgnoredItem])[..|a|] == a;
      assert a + b == a;
    } else {
      var front, e := b[..|b| - 1], b[|b| - 1];
      IgnoredItemNeutral(name, a, front);
      assert (a + [IgnoredItem] + b)[..|a| + |b|] == a + [IgnoredItem] + front;
      assert (a + b)[..|a| + |b| - 1] == a + front;
    }
  }

  // ---------------------------------------------------------------------------------------
  // The file fold (src/parser.rs:356-370).

  function SyntaxIn(e: Event): Option<Syntax> {
    if e.SyntaxStmt? then Some(e.syntax) else None
  }

  function PackageIn(e: Event): Option<string> {
    if e.PackageStmt? then Some(e.package) else None
  }

  function ImportsIn(e: Event): seq<string> {
    if e.ImportStmt? then [e.path] else []
  }

  function DefinedMessagesIn(e: Event): seq<Message> {
    if e.MessageDef? then [e.message] else []
  }

  function DefinedEnumsIn(e: Event): seq<Enumeration> {
    if e.EnumDef? then [e.enumeration] else []
  }

  function ExtensionsIn(e: Event): seq<Extension> {
    if e.ExtendBlock? then e.extensions else []
  }

  /** One turn of the loop body (src/parser.rs:360-368). */
  function ApplyEvent(desc: FileDescriptor, e: Event): FileDescriptor {
    match e
    case SyntaxStmt(s) => desc.(syntax := s)
    case ImportStmt(i) => desc.(importPaths := desc.importPaths + [i])
    case PackageStmt(p) => desc.(package := p)
    case MessageDef(m) => desc.(messages := desc.messages + [m])
    case EnumDef(en) => desc.(enums := desc.enums + [en])
    case ExtendBlock(x) => desc.(extensions := desc.extensions + x)
    case Ignored => desc
  }

  /** The descriptor the loop returns: the events applied in order to the default descriptor. */
  function FileOf(events: seq<Event>): FileDescriptor
    decreases |events|
  {
    if events == [] then EmptyFile()
    else ApplyEvent(FileOf(events[..|events| - 1]), events[|events| - 1])
  }

  /** The loop of `file_descriptor` (src/parser.rs:356-370). */
  method BuildFile(events: seq<Event>) returns (desc: FileDescriptor)
    ensures desc == FileOf(events)
  {
    desc := EmptyFile();
    for i := 0 to |events|
      invariant desc == FileOf(events[..i])
    {
      match events[i] {
        case SyntaxStmt(s) => desc := desc.(syntax := s);
        case ImportStmt(p) => desc := desc.(importPaths := desc.importPaths + [p]);
        case PackageStmt(p) => desc := desc.(package := p);
        case MessageDef(m) => desc := desc.(messages := desc.messages + [m]);
        case EnumDef(en) => desc := desc.(enums := desc.enums + [en]);
        case ExtendBlock(x) => desc := desc.(extensions := desc.extensions + x);
        case Ignored =>
      }
      assert events[..i + 1][..i] == events[..i];
    }
    assert events[..|events|] == events;
  }

  /** The descriptor described member by member: `syntax` and `package` come from the last
      statement of their kind and otherwise keep the defaults `proto2` and the empty package;
      imports, messages and enums are the corresponding events in order; the extension lists
      of all `extend` blocks are concatenated in order. */
  function FileSpec(events: seq<Event>): FileDescriptor {
    FileDescriptor(
      Collect(events, ImportsIn),
      Latest(events, PackageIn).GetOr(""),
      Latest(events, SyntaxIn).GetOr(Proto2),
      Collect(events, DefinedMessagesIn),
      Collect(events, DefinedEnumsIn),
      Collect(events, ExtensionsIn))
  }

  /** The member-by-member description takes one more event the way the loop body does. */
  lemma FileSpecSnoc(front: seq<Event>, e: Event)
    ensures FileSpec(front + [e]) == ApplyEvent(FileSpec(front), e)
  {
    CollectSnoc(front, e, ImportsIn);
    CollectSnoc(front, e, DefinedMessagesIn);
    CollectSnoc(front, e, DefinedEnumsIn);
    CollectSnoc(front, e, ExtensionsIn);
    LatestSnoc(front, e, PackageIn);
    LatestSnoc(front, e, SyntaxIn);
  }

  /** The fold agrees with the member-by-member description. */
  lemma {:induction false} FileOfSpec(events: seq<Event>)
    ensures FileOf(events) == FileSpec(events)
    decreases |events|
  {
    if events != [] {
      var front, e := events[..|events| - 1], events[|events| - 1];
      assert events == front + [e];
      FileOfSpec(front);
      FileSpecSnoc(front, e);
    }
  }

  /** A file without a `syntax` statement is proto2, and one without a `package` statement has
      the empty package. */
  lemma FileDefaults(events: seq<Event>)
    ensures (forall k | 0 <= k < |events| :: !events[k].SyntaxStmt?) ==> FileOf(events).syntax == Proto2
    ensures (forall k | 0 <= k < |events| :: !events[k].PackageStmt?) ==> FileOf(events).package == ""
  {
    FileOfSpec(events);
    if forall k | 0 <= k < |events| :: !events[k].SyntaxStmt? {
      assert forall k | 0 <= k < |events| :: SyntaxIn(events[k]).None?;
    }
    if forall k | 0 <= k < |events| :: !events[k].PackageStmt? {
      assert forall k | 0 <= k < |events| :: PackageIn(events[k]).None?;
    }
  }

  /** The last `syntax` statement wins. */
  lemma SyntaxLastWins(a: seq<Event>, x: Syntax, b: seq<Event>)
    requires forall k | 0 <= k < |b| :: !b[k].SyntaxStmt?
    ensures FileOf(a + [SyntaxStmt(x)] + b).syntax == x
  {
    FileOfSpec(a + [SyntaxStmt(x)] + b);
    LatestAppend(a + [SyntaxStmt(x)], b, SyntaxIn);
    LatestSnoc(a, SyntaxStmt(x), SyntaxIn);
    assert forall k | 0 <= k < |b| :: SyntaxIn(b[k]).None?;
  }

  /** The last `package` statement wins. */
  lemma PackageLastWins(a: seq<Event>, p: string, b: seq<Event>)
    requires forall k | 0 <= k < |b| :: !b[k].PackageStmt?
    ensures FileOf(a + [PackageStmt(p)] + b).package == p
  {
    FileOfSpec(a + [PackageStmt(p)] + b);
    LatestAppend(a + [PackageStmt(p)], b, PackageIn);
    LatestSnoc(a, PackageStmt(p), PackageIn);
    assert forall k | 0 <= k < |b| :: PackageIn(b[k]).None?;
  }

  /** Imports, messages, enums and extensions accumulate in order across the file. */
  lemma FileAppends(a: seq<Event>, b: seq<Event>)
    ensures FileOf(a + b).importPaths == FileOf(a).importPaths + FileOf(b).importPaths
    ensures FileOf(a + b).messages == FileOf(a).messages + FileOf(b).messages
    ensures FileOf(a + b).enums == FileOf(a).enums + FileOf(b).enums
    ensures FileOf(a + b).extensions == FileOf(a).extensions + FileOf(b).extensions
  {
    FileOfSpec(a);
    FileOfSpec(b);
    FileOfSpec(a + b);
    CollectAppend(a, b, ImportsIn);
    CollectAppend(a, b, DefinedMessagesIn);
    CollectAppend(a, b, DefinedEnumsIn);
    CollectAppend(a, b, ExtensionsIn);
  }

  /** An `extend` block adds its extensions, all of them and in order, after the ones before. */
  lemma ExtendBlockAppends(events: seq<Event>, x: seq<Extension>)
    ensures FileOf(events + [ExtendBlock(x)]).extensions == FileOf(events).extensions + x
    ensures FileOf(events + [ExtendBlock(x)]).messages == FileOf(events).messages
  {
    FileOfSpec(events);
    FileOfSpec(events + [ExtendBlock(x)]);
    CollectSnoc(events, ExtendBlock(x), ExtensionsIn);
    CollectSnoc(events, ExtendBlock(x), DefinedMessagesIn);
  }

  /** An ignored statement (an option, a service, a stray break) changes nothing. */
  lemma {:induction false} IgnoredNeutral(a: seq<Event>, b: seq<Event>)
    ensures FileOf(a + [Ignored] + b) == FileOf(a + b)
    decreases |b|
  {
    if b == [] {
      assert a + [Ignored] + b == a + [Ignored];
      assert (a + [Ignored])[..|a|] == a;
      assert a + b == a;
    } else {
      var front, e := b[..|b| - 1], b[|b| - 1];
      IgnoredNeutral(a, front);
      assert (a + [Ignored] + b)[..|a| + |b|] == a + [Ignored] + front;
      assert (a + b)[..|a| + |b| - 1] == a + front;
    }
  }
}
