/** Any JSON text (RFC 8259), with white space wherever it may stand, and that the parser
    of src/guacenc/cJSON.c reads from it the tree it stands for. */
module CJsonDocuments {
  import opened Unicode
  import opened CJson
  import opened CJsonParser
  import CJsonNumbers
  import CJsonStrings

  /** A value as it is written: its words, numerals and strings, and the white space in
      and around the items of an array and the members of an object. */
  datatype Doc =
    | NullDoc
    | FalseDoc
    | TrueDoc
    | NumberDoc(numeral: CJsonNumbers.Numeral)
    | StringDoc(pieces: seq<CJsonStrings.Piece>)
    | EmptyArray(space: seq<Octet>)
    | ArrayDoc(items: Items)
    | EmptyObject(space: seq<Octet>)
    | ObjectDoc(members: Members)

  datatype Items =
    | Last(before: seq<Octet>, doc: Doc, after: seq<Octet>)
    | Item(before: seq<Octet>, doc: Doc, after: seq<Octet>, more: Items)

  datatype Name = Name(before: seq<Octet>, pieces: seq<CJsonStrings.Piece>, after: seq<Octet>)

  datatype Members =
    | LastMember(name: Name, before: seq<Octet>, doc: Doc, after: seq<Octet>)
    | NextMember(name: Name, before: seq<Octet>, doc: Doc, after: seq<Octet>, more: Members)

  // -------------------------------------------------------------- what is written

  /** Space, tab, line feed and carriage return. */
  predicate IsSpace(s: seq<Octet>) { forall k :: 0 <= k < |s| ==> s[k] in [0x20, 0x9, 0xA, 0xD] }

  predicate ProperName(n: Name) { IsSpace(n.before) && IsSpace(n.after) && CJsonStrings.AllProper(n.pieces) }

  predicate Proper(d: Doc) {
    match d
    case NumberDoc(m) => CJsonNumbers.Proper(m)
    case StringDoc(pieces) => CJsonStrings.AllProper(pieces)
    case EmptyArray(space) => IsSpace(space)
    case ArrayDoc(items) => ProperItems(items)
    case EmptyObject(space) => IsSpace(space)
    case ObjectDoc(members) => ProperMembers(members)
    case _ => true
  }

  predicate ProperItems(i: Items) {
    IsSpace(i.before) && Proper(i.doc) && IsSpace(i.after) && (i.Item? ==> ProperItems(i.more))
  }

  predicate ProperMembers(m: Members) {
    ProperName(m.name) && IsSpace(m.before) && Proper(m.doc) && IsSpace(m.after) &&
    (m.NextMember? ==> ProperMembers(m.more))
  }

  function NameText(n: Name): seq<Octet>
    requires ProperName(n)
  {
    n.before + CJsonStrings.Quoted(n.pieces) + n.after
  }

  function DocText(d: Doc): seq<Octet>
    requires Proper(d)
  {
    match d
    case NullDoc => NULL_WORD
    case FalseDoc => FALSE_WORD
    case TrueDoc => TRUE_WORD
    case NumberDoc(m) => CJsonNumbers.Text(m)
    case StringDoc(pieces) => CJsonStrings.Quoted(pieces)
    case EmptyArray(space) => [OPEN_BRACKET] + (space + [CLOSE_BRACKET])
    case ArrayDoc(items) => [OPEN_BRACKET] + ItemsText(items)
    case EmptyObject(space) => [OPEN_BRACE] + (space + [CLOSE_BRACE])
    case ObjectDoc(members) => [OPEN_BRACE] + MembersText(members)
  }

  /** The items and the end of their array. */
  function ItemsText(i: Items): seq<Octet>
    requires ProperItems(i)
  {
    i.before + (DocText(i.doc) + (i.after + if i.Last? then [CLOSE_BRACKET] else [COMMA] + ItemsText(i.more)))
  }

  function MembersText(m: Members): seq<Octet>
    requires ProperMembers(m)
  {
    NameText(m.name) +
    ([COLON] + (m.before + (DocText(m.doc) +
       (m.after + if m.LastMember? then [CLOSE_BRACE] else [COMMA] + MembersText(m.more)))))
  }

  // --------------------------------------------------------- what it stands for

  function Meaning(d: Doc): JSON
    requires Proper(d)
  {
    match d
    case NullDoc => Null
    case FalseDoc => False
    case TrueDoc => True
    case NumberDoc(m) => Number(CJsonNumbers.Meaning(m))
    case StringDoc(pieces) => String(CJsonStrings.AllBytes(pieces))
    case EmptyArray(_) => Array([])
    case ArrayDoc(items) => Array(ItemsMeaning(items))
    case EmptyObject(_) => Object([])
    case ObjectDoc(members) => Object(MembersMeaning(members))
  }

  function ItemsMeaning(i: Items): seq<JSON>
    requires ProperItems(i)
  {
    [Meaning(i.doc)] + if i.Last? then [] else ItemsMeaning(i.more)
  }

  function MembersMeaning(m: Members): seq<Member>
    requires ProperMembers(m)
  {
    [Member(CJsonStrings.AllBytes(m.name.pieces), Meaning(m.doc))] + if m.LastMember? then [] else MembersMeaning(m.more)
  }

  // ---------------------------------------------------------------------- reading

  lemma {:induction false} SpaceSkipped(space: seq<Octet>, t: seq<Octet>)
    requires IsSpace(space)
    ensures AfterSpace(space + t) == AfterSpace(t)
  {
    if space == [] {
      assert space + t == t;
    } else {
      SpaceSkipped(space[1..], t);
      assert (space + t)[1..] == space[1..] + t;
    }
  }

  lemma NoSpaceAhead(t: seq<Octet>)
    requires t != [] && t[0] > SPACE
    ensures AfterSpace(t) == t
  {
  }

  lemma NumeralHead(m: CJsonNumbers.Numeral)
    requires CJsonNumbers.Proper(m)
    ensures var t := CJsonNumbers.Text(m); t != [] && (t[0] == MINUS || IsDigit(t[0]))
  {
    CJsonNumbers.SignAhead(m, []);
    assert CJsonNumbers.Text(m) + [] == CJsonNumbers.Text(m);
  }

  lemma QuotedHead(pieces: seq<CJsonStrings.Piece>)
    requires CJsonStrings.AllProper(pieces)
    ensures var t := CJsonStrings.Quoted(pieces); t != [] && t[0] == QUOTE
  {
  }

  /** No value starts with white space or a closing bracket. */
  lemma DocHead(d: Doc)
    requires Proper(d)
    ensures var t := DocText(d); t != [] && t[0] > SPACE && t[0] != CLOSE_BRACKET && t[0] != CLOSE_BRACE
  {
    hide CJsonNumbers.Text, CJsonStrings.Quoted, ItemsText, MembersText;
    match d
    case NumberDoc(m) => NumeralHead(m);
    case StringDoc(pieces) => QuotedHead(pieces);
    case _ =>
  }

  lemma NumeralDispatch(t: seq<Octet>)
    requires t != [] && (t[0] == MINUS || IsDigit(t[0]))
    ensures ReadValue(t) == ReadNumber(t)
  {
    hide ReadItems, ReadMembers, ReadString, ReadNumber, AfterSpace;
    NoWord(t);
  }

  lemma BracketDispatch(t: seq<Octet>)
    ensures ReadValue([OPEN_BRACKET] + t) ==
            var u := AfterSpace(t);
            if Peek(u) == CLOSE_BRACKET then Ok(Array([]), u[1..]) else MapOk(ReadItems(t), items => Array(items))
  {
    hide ReadValue, ReadItems, AfterSpace;
    SpaceGone(t);
    BracketUnfolds(t);
    ItemsSkipSpace(t);
  }

  lemma BracketUnfolds(t: seq<Octet>)
    ensures ReadValue([OPEN_BRACKET] + t) ==
            var u := AfterSpace(t);
            if Peek(u) == CLOSE_BRACKET then Ok(Array([]), u[1..]) else MapOk(ReadItems(u), items => Array(items))
  {
    hide ReadItems, ReadMembers, ReadString, ReadNumber, AfterSpace;
    NoWord([OPEN_BRACKET] + t);
    assert ([OPEN_BRACKET] + t)[1..] == t;
  }

  lemma ItemsSkipSpace(t: seq<Octet>)
    ensures ReadItems(AfterSpace(t)) == ReadItems(t)
  {
    hide ReadValue, MoreItems, AfterSpace;
    SpaceGone(t);
  }

  /** Could what follows continue the value? */
  predicate Continues(d: Doc, rest: seq<Octet>) { d.NumberDoc? && ContinuesNumber(rest) }

  lemma SpaceContinuesNothing(space: seq<Octet>, c: Octet, rest: seq<Octet>)
    requires IsSpace(space) && c in [COMMA, CLOSE_BRACKET, CLOSE_BRACE]
    ensures !ContinuesNumber(space + ([c] + rest))
  {
    var t := space + ([c] + rest);
    assert t[0] == if space == [] then c else space[0];
  }

  /** One item, and what stands behind it. */
  lemma ItemRead(before: seq<Octet>, d: Doc, after: seq<Octet>, tail: seq<Octet>)
    requires IsSpace(before) && Proper(d) && IsSpace(after) && tail != [] && tail[0] > SPACE
    requires ReadValue(DocText(d) + (after + tail)) == Ok(Meaning(d), after + tail)
    ensures ReadItems(before + (DocText(d) + (after + tail))) == Prepend([Meaning(d)], MoreItems(tail))
  {
    hide ReadValue, MoreItems, AfterSpace, DocText, IsSpace, Proper, Meaning;
    var t := DocText(d) + (after + tail);
    DocHead(d);
    NoSpaceAhead(t);
    SpaceSkipped(before, t);
    SpaceSkipped(after, tail);
    NoSpaceAhead(tail);
  }

  lemma NameRead(n: Name, before: seq<Octet>, t: seq<Octet>, value: JSON, rest: seq<Octet>)
    requires ProperName(n) && IsSpace(before) && t != [] && t[0] > SPACE && ReadValue(t) == Ok(value, rest)
    ensures ReadMember(NameText(n) + ([COLON] + (before + t))) ==
            Ok(Member(CJsonStrings.AllBytes(n.pieces), value), rest)
  {
    hide ReadValue, ReadString, AfterSpace, IsSpace, CJsonStrings.Quoted, CJsonStrings.AllBytes, CJsonStrings.AllProper;
    var colon: seq<Octet> := [COLON] + (before + t);
    var quoted := CJsonStrings.Quoted(n.pieces);
    QuotedHead(n.pieces);
    assert NameText(n) + colon == n.before + (quoted + (n.after + colon));
    SpaceSkipped(n.before, quoted + (n.after + colon));
    NoSpaceAhead(quoted + (n.after + colon));
    CJsonStrings.QuotedReads(n.pieces, n.after + colon);
    SpaceSkipped(n.after, colon);
    NoSpaceAhead(colon);
    assert colon[1..] == before + t;
    SpaceSkipped(before, t);
    NoSpaceAhead(t);
  }

  lemma MembersUnfold(t: seq<Octet>, member: Member, after: seq<Octet>, tail: seq<Octet>)
    requires ReadMember(t) == Ok(member, after + tail) && IsSpace(after) && tail != [] && tail[0] > SPACE
    ensures ReadMembers(t) == Prepend([member], MoreMembers(tail))
  {
    hide ReadMember, MoreMembers, AfterSpace, IsSpace;
    SpaceSkipped(after, tail);
    NoSpaceAhead(tail);
  }

  lemma ArrayEnds(rest: seq<Octet>)
    ensures MoreItems([CLOSE_BRACKET] + rest) == Ok([], rest)
  {
    hide ReadItems;
    assert ([CLOSE_BRACKET] + rest)[1..] == rest;
  }

  lemma ArrayGoesOn(t: seq<Octet>)
    ensures MoreItems([COMMA] + t) == ReadItems(t)
  {
    hide ReadItems;
    assert ([COMMA] + t)[1..] == t;
  }

  lemma ObjectEnds(rest: seq<Octet>)
    ensures MoreMembers([CLOSE_BRACE] + rest) == Ok([], rest)
  {
    hide ReadMembers;
    assert ([CLOSE_BRACE] + rest)[1..] == rest;
  }

  lemma ObjectGoesOn(t: seq<Octet>)
    ensures MoreMembers([COMMA] + t) == ReadMembers(t)
  {
    hide ReadMembers;
    assert ([COMMA] + t)[1..] == t;
  }

  lemma {:induction false} ItemsAreRead(i: Items, rest: seq<Octet>)
    requires ProperItems(i)
    ensures ReadItems(ItemsText(i) + rest) == Ok(ItemsMeaning(i), rest)
    decreases i
  {
    hide ReadItems, MoreItems, ReadValue, DocText, Meaning, Proper, IsSpace, ContinuesNumber;
    var tail := (if i.Last? then [CLOSE_BRACKET] else [COMMA] + ItemsText(i.more)) + rest;
    assert ItemsText(i) + rest == i.before + (DocText(i.doc) + (i.after + tail));
    if i.Last? {
      SpaceContinuesNothing(i.after, CLOSE_BRACKET, rest);
      ArrayEnds(rest);
    } else {
      assert tail == [COMMA] + (ItemsText(i.more) + rest);
      SpaceContinuesNothing(i.after, COMMA, ItemsText(i.more) + rest);
      ArrayGoesOn(ItemsText(i.more) + rest);
      ItemsAreRead(i.more, rest);
    }
    DocIsRead(i.doc, i.after + tail);
    ItemRead(i.before, i.doc, i.after, tail);
  }

  lemma {:induction false} MembersAreRead(m: Members, rest: seq<Octet>)
    requires ProperMembers(m)
    ensures ReadMembers(MembersText(m) + rest) == Ok(MembersMeaning(m), rest)
    decreases m
  {
    hide ReadMembers, MoreMembers, ReadMember, ReadValue, DocText, Meaning, Proper, IsSpace, ContinuesNumber, NameText;
    hide CJsonStrings.AllBytes, CJsonStrings.AllProper;
    var tail := (if m.LastMember? then [CLOSE_BRACE] else [COMMA] + MembersText(m.more)) + rest;
    var t := DocText(m.doc) + (m.after + tail);
    assert MembersText(m) + rest == NameText(m.name) + ([COLON] + (m.before + t));
    if m.LastMember? {
      SpaceContinuesNothing(m.after, CLOSE_BRACE, rest);
      ObjectEnds(rest);
    } else {
      assert tail == [COMMA] + (MembersText(m.more) + rest);
      SpaceContinuesNothing(m.after, COMMA, MembersText(m.more) + rest);
      ObjectGoesOn(MembersText(m.more) + rest);
      MembersAreRead(m.more, rest);
    }
    DocIsRead(m.doc, m.after + tail);
    DocHead(m.doc);
    NameRead(m.name, m.before, t, Meaning(m.doc), m.after + tail);
    MembersUnfold(MembersText(m) + rest, Member(CJsonStrings.AllBytes(m.name.pieces), Meaning(m.doc)), m.after, tail);
  }

  lemma ItemsHead(i: Items, rest: seq<Octet>)
    requires ProperItems(i)
    ensures Peek(AfterSpace(ItemsText(i) + rest)) != CLOSE_BRACKET
  {
    hide DocText, Proper, IsSpace, AfterSpace;
    var tail := i.after + ((if i.Last? then [CLOSE_BRACKET] else [COMMA] + ItemsText(i.more)) + rest);
    var t := DocText(i.doc) + tail;
    assert ItemsText(i) + rest == i.before + t;
    DocHead(i.doc);
    SpaceSkipped(i.before, t);
    NoSpaceAhead(t);
  }

  lemma MembersHead(m: Members, rest: seq<Octet>)
    requires ProperMembers(m)
    ensures Peek(AfterSpace(MembersText(m) + rest)) == QUOTE
  {
    hide DocText, Proper, IsSpace, AfterSpace, CJsonStrings.Quoted, CJsonStrings.AllProper;
    var quoted := CJsonStrings.Quoted(m.name.pieces);
    var tail := (MembersText(m) + rest)[|m.name.before| + |quoted|..];
    assert MembersText(m) + rest == m.name.before + (quoted + tail);
    QuotedHead(m.name.pieces);
    SpaceSkipped(m.name.before, quoted + tail);
    NoSpaceAhead(quoted + tail);
  }

  /** Every JSON text is read as the tree it stands for, and what follows it is left
      over. */
  lemma {:induction false} DocIsRead(d: Doc, rest: seq<Octet>)
    requires Proper(d) && !Continues(d, rest)
    ensures ReadValue(DocText(d) + rest) == Ok(Meaning(d), rest)
    decreases d
  {
    hide ReadValue, ReadItems, ReadMembers, ReadNumber, ReadString, AfterSpace, CJsonNumbers.Text, CJsonStrings.Quoted;
    hide CJsonNumbers.Meaning, CJsonStrings.AllBytes, ItemsText, MembersText, IsSpace, ContinuesNumber;
    var t := DocText(d) + rest;
    match d
    case NullDoc => WordsReadBack(rest);
    case FalseDoc => WordsReadBack(rest);
    case TrueDoc => WordsReadBack(rest);
    case NumberDoc(m) =>
      NumeralHead(m);
      NumeralDispatch(t);
      CJsonNumbers.NumeralMeans(m, rest);
    case StringDoc(pieces) =>
      QuotedHead(pieces);
      StringDispatch(t);
      CJsonStrings.QuotedReads(pieces, rest);
    case EmptyArray(space) =>
      assert t == [OPEN_BRACKET] + (space + ([CLOSE_BRACKET] + rest));
      BracketDispatch(space + ([CLOSE_BRACKET] + rest));
      SpaceSkipped(space, [CLOSE_BRACKET] + rest);
      NoSpaceAhead([CLOSE_BRACKET] + rest);
    case ArrayDoc(items) =>
      assert t == [OPEN_BRACKET] + (ItemsText(items) + rest);
      BracketDispatch(ItemsText(items) + rest);
      ItemsHead(items, rest);
      ItemsAreRead(items, rest);
    case EmptyObject(space) =>
      assert t == [OPEN_BRACE] + (space + ([CLOSE_BRACE] + rest));
      ObjectDispatch(space + ([CLOSE_BRACE] + rest));
      SpaceSkipped(space, [CLOSE_BRACE] + rest);
      NoSpaceAhead([CLOSE_BRACE] + rest);
    case ObjectDoc(members) =>
      assert t == [OPEN_BRACE] + (MembersText(members) + rest);
      ObjectDispatch(MembersText(members) + rest);
      MembersHead(members, rest);
      MembersAreRead(members, rest);
  }

  lemma OnlySpace(space: seq<Octet>)
    requires IsSpace(space)
    ensures AfterSpace(space) == [] && !ContinuesNumber(space)
  {
    SpaceSkipped(space, []);
    assert space + [] == space;
  }

  /** Parsing a whole JSON text, with white space around it, gives the tree it stands for
      and uses up all of it. */
  method ParseDocument(before: seq<Octet>, d: Doc, after: seq<Octet>) returns (r: Result<JSON>)
    requires IsSpace(before) && Proper(d) && IsSpace(after)
    ensures r == Ok(Meaning(d), [])
  {
    hide ReadValue, AfterSpace, DocText, Meaning, Proper, IsSpace, ContinuesNumber;
    var t := DocText(d) + after;
    OnlySpace(after);
    DocHead(d);
    SpaceSkipped(before, t);
    NoSpaceAhead(t);
    DocIsRead(d, after);
    r := Parse(before + t, true);
  }
}
