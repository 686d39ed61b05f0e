/** The parser of `git ls-tree -r -z -l` output, and the format it reads. */
module CommitTree {
  import opened Wrappers
  import opened Bytes
  import opened Sequences
  import opened Utf8

  datatype Kind = File | Symlink | Submodule

  datatype Entry = Entry(path: seq<Byte>, kind: Kind, size: Option<nat>, objectId: seq<Byte>)

  datatype GitError = InvalidTree | InvalidObjectId | InvalidVersionPath

  const NUL: Byte := 0
  const TAB: Byte := 9
  const SPACE: Byte := 32
  const PLUS: Byte := 43
  const DASH: Byte := 45
  const DOT: Byte := 46
  const SLASH: Byte := 47
  /** `120000`, `160000`, `100644`, `blob`, `commit`. */
  const SYMLINK_MODE: seq<Byte> := [49, 50, 48, 48, 48, 48]
  const SUBMODULE_MODE: seq<Byte> := [49, 54, 48, 48, 48, 48]
  const FILE_MODE: seq<Byte> := [49, 48, 48, 54, 52, 52]
  const BLOB: seq<Byte> := [98, 108, 111, 98]
  const COMMIT: seq<Byte> := [99, 111, 109, 109, 105, 116]

  const SIZE_WIDTH: nat := 7

  // ------------------------------------------------------------------- pieces

  predicate IsSpace(b: Byte)
  {
    b == 9 || b == 10 || b == 12 || b == 13 || b == 32
  }

  function WordLength(s: seq<Byte>): (n: nat)
    ensures n <= |s|
    ensures forall i :: 0 <= i < n ==> !IsSpace(s[i])
    ensures n < |s| ==> IsSpace(s[n])
  {
    if s == [] || IsSpace(s[0]) then 0 else 1 + WordLength(s[1..])
  }

  /** The words between ASCII whitespace. */
  function Fields(s: seq<Byte>): seq<seq<Byte>>
    decreases |s|
  {
    if s == [] then []
    else if IsSpace(s[0]) then Fields(s[1..])
    else [s[..WordLength(s)]] + Fields(s[WordLength(s)..])
  }

  predicate IsDigit(b: Byte)
  {
    48 <= b <= 57
  }

  predicate IsNumber(s: seq<Byte>)
  {
    s != [] && forall i :: 0 <= i < |s| ==> IsDigit(s[i])
  }

  function ValueOf(s: seq<Byte>): nat
    requires forall i :: 0 <= i < |s| ==> IsDigit(s[i])
  {
    if s == [] then 0
    else
      var last := s[|s| - 1];
      assert IsDigit(last);
      10 * ValueOf(s[..|s| - 1]) + (last as int - 48)
  }

  /** The 64-bit unsigned parser: one plus sign is allowed. */
  function ParseSize(field: seq<Byte>): Option<nat>
  {
    var digits := if field != [] && field[0] == PLUS then field[1..] else field;
    if IsNumber(digits) && ValueOf(digits) <= U64_MAX then Some(ValueOf(digits)) else None
  }

  predicate IsObjectId(id: seq<Byte>)
  {
    (|id| == 40 || |id| == 64) &&
    forall i :: 0 <= i < |id| ==> IsDigit(id[i]) || 97 <= id[i] <= 102 || 65 <= id[i] <= 70
  }

  predicate IsVersionPath(path: seq<Byte>)
  {
    && path != [] && path[0] != SLASH && NUL !in path
    && forall component :: component in Split(path, SLASH) ==>
      component != [] && component != [DOT] && component != [DOT, DOT]
  }

  function FirstTab(record: seq<Byte>): (i: nat)
    ensures i <= |record|
    ensures (forall k :: 0 <= k < i ==> record[k] != TAB) && (i < |record| ==> record[i] == TAB)
  {
    if record == [] || record[0] == TAB then 0 else 1 + FirstTab(record[1..])
  }

  function KindOf(mode: seq<Byte>, objectType: seq<Byte>): Option<Kind>
  {
    if mode == SYMLINK_MODE && objectType == BLOB then Some(Symlink)
    else if mode == SUBMODULE_MODE && objectType == COMMIT then Some(Submodule)
    else if objectType == BLOB then Some(File)
    else None
  }

  /** One record: `mode type id size`, a tab, the path. */
  function ParseRecord(record: seq<Byte>): Result<Entry, GitError>
  {
    var tab := FirstTab(record);
    if tab == |record| then Failure(InvalidTree)
    else
      var header, path := record[..tab], record[tab + 1..];
      if ValidUpTo(header) < |header| then Failure(InvalidTree)
      else
        var fields := Fields(header);
        if |fields| < 3 then Failure(InvalidTree)
        else if !IsObjectId(fields[2]) then Failure(InvalidObjectId)
        else if |fields| != 4 then Failure(InvalidTree)
        else
          var kind, size := KindOf(fields[0], fields[1]), ParseSize(fields[3]);
          if kind.None? || (fields[3] != [DASH] && size.None?) || (fields[3] == [DASH] && kind != Some(Submodule)) then
            Failure(InvalidTree)
          else if ValidUpTo(path) < |path| then Failure(InvalidTree)
          else if !IsVersionPath(path) then Failure(InvalidVersionPath)
          else Success(Entry(path, kind.value, if fields[3] == [DASH] then None else size, fields[2]))
  }

  function NonEmpty(pieces: seq<seq<Byte>>): seq<seq<Byte>>
  {
    if pieces == [] then []
    else
      var rest := NonEmpty(pieces[..|pieces| - 1]);
      if pieces[|pieces| - 1] == [] then rest else rest + [pieces[|pieces| - 1]]
  }

  /** The records of an output: what stands between NUL bytes, empty stretches left out. */
  function Records(output: seq<Byte>): seq<seq<Byte>>
  {
    NonEmpty(Split(output, NUL))
  }

  ghost predicate IsWellFormed(entry: Entry)
  {
    && IsVersionPath(entry.path) && IsText(entry.path)
    && IsObjectId(entry.objectId)
    && (entry.size.Some? ==> entry.size.value <= U64_MAX)
    && (entry.size.None? ==> entry.kind == Submodule)
  }

  /** A parsed record is a well-formed entry. */
  lemma RecordWellFormed(record: seq<Byte>)
    requires ParseRecord(record).Success?
    ensures IsWellFormed(ParseRecord(record).value)
  {
    TextIsValid(ParseRecord(record).value.path);
    hide IsText, ValidUpTo, Fields, Split;
  }

  /** What stands before the tab: mode, type, object id and size, separated by blanks. */
  ghost predicate ReadsAs(header: seq<Byte>, entry: Entry)
  {
    && TAB !in header && IsText(header) && |Fields(header)| == 4
    && IsObjectId(entry.objectId) && Fields(header)[2] == entry.objectId
    && var mode, objectType := Fields(header)[0], Fields(header)[1];
    && (match entry.kind
        case Symlink => mode == SYMLINK_MODE && objectType == BLOB
        case Submodule => mode == SUBMODULE_MODE && objectType == COMMIT
        case File => mode != SYMLINK_MODE && objectType == BLOB)
    && if Fields(header)[3] == [DASH] then entry.size == None && entry.kind == Submodule
       else entry.size.Some? && ParseSize(Fields(header)[3]) == entry.size
  }

  ghost predicate IsLine(record: seq<Byte>, header: seq<Byte>, entry: Entry)
  {
    record == header + [TAB] + entry.path && ReadsAs(header, entry) && IsText(entry.path)
  }

  /**
   A record parses exactly as the entry it is a line of, provided the path is valid; an
   invalid path is told apart from everything else that can be wrong with a line.
   */
  lemma ParsesExactly(record: seq<Byte>, entry: Entry)
    ensures ParseRecord(record) == Success(entry) <==>
      IsVersionPath(entry.path) && exists header :: IsLine(record, header, entry)
    ensures ParseRecord(record) == Failure(InvalidVersionPath) <==>
      exists header, other :: IsLine(record, header, other) && !IsVersionPath(other.path)
  {
    hide IsText, ValidUpTo, Fields, IsVersionPath, IsObjectId, ParseSize;
    var tab := FirstTab(record);
    forall header, other | IsLine(record, header, other)
      ensures tab < |record| && header == record[..tab] && other.path == record[tab + 1..]
    {
      TabAfter(record, header, other.path);
    }
    if tab < |record| {
      var header, path := record[..tab], record[tab + 1..];
      assert record == header + [TAB] + path;
      TextIsValid(header);
      TextIsValid(path);
      if |Fields(header)| == 4 {
        var kind, size := KindOf(Fields(header)[0], Fields(header)[1]), ParseSize(Fields(header)[3]);
        ModesDiffer();
        if kind.Some? {
          var read := Entry(path, kind.value, if Fields(header)[3] == [DASH] then None else size, Fields(header)[2]);
          assert IsLine(record, header, read) <==> ReadsAs(header, read) && IsText(path);
        }
      }
    }
  }

  /** So is a third field that is no object id. */
  lemma ObjectIdRefused(record: seq<Byte>)
    ensures ParseRecord(record) == Failure(InvalidObjectId) <==>
      var header := record[..FirstTab(record)];
      TAB in record && IsText(header) && |Fields(header)| >= 3 && !IsObjectId(Fields(header)[2])
  {
    hide IsText, ValidUpTo, Fields, IsVersionPath, IsObjectId, ParseSize, KindOf;
    TextIsValid(record[..FirstTab(record)]);
  }

  lemma ModesDiffer()
    ensures SYMLINK_MODE != SUBMODULE_MODE && BLOB != COMMIT
  {
    assert SYMLINK_MODE[1] != SUBMODULE_MODE[1] && |BLOB| != |COMMIT|;
  }

  lemma TabAfter(record: seq<Byte>, header: seq<Byte>, path: seq<Byte>)
    requires record == header + [TAB] + path && TAB !in header
    ensures FirstTab(record) == |header| && header == record[..|header|] && path == record[|header| + 1..]
  {
    assert record[|header|] == TAB;
    assert forall k :: 0 <= k < |header| ==> record[k] == header[k];
  }

  /** The first record that does not parse, and why. */
  ghost predicate FailsFirst(records: seq<seq<Byte>>, i: int, error: GitError)
  {
    && 0 <= i < |records| && ParseRecord(records[i]) == Failure(error)
    && forall k :: 0 <= k < i ==> ParseRecord(records[k]).Success?
  }

  /**
   On any bytes: one well-formed entry per record in order, or the failure of the
   first record that is none.
   */
  ghost predicate IsParse(output: seq<Byte>, result: Result<seq<Entry>, GitError>)
  {
    match result
    case Success(entries) =>
      && |entries| == |Records(output)|
      && forall i :: 0 <= i < |entries| ==>
        ParseRecord(Records(output)[i]) == Success(entries[i]) && IsWellFormed(entries[i])
    case Failure(error) => exists i :: FailsFirst(Records(output), i, error)
  }

  method ParseCommitTree(output: seq<Byte>) returns (result: Result<seq<Entry>, GitError>)
    ensures IsParse(output, result)
  {
    var pieces := Split(output, NUL);
    var entries: seq<Entry> := [];
    for i := 0 to |pieces|
      invariant |entries| == |NonEmpty(pieces[..i])|
      invariant forall k :: 0 <= k < |entries| ==>
        ParseRecord(NonEmpty(pieces[..i])[k]) == Success(entries[k]) && IsWellFormed(entries[k])
    {
      assert pieces[..i + 1][..i] == pieces[..i];
      if pieces[i] == [] {
        continue;
      }
      var parsed := ParseRecord(pieces[i]);
      if parsed.Failure? {
        NonEmptyPrefix(pieces, i + 1);
        assert FailsFirst(Records(output), |entries|, parsed.error);
        return Failure(parsed.error);
      }
      RecordWellFormed(pieces[i]);
      entries := entries + [parsed.value];
    }
    assert pieces[..|pieces|] == pieces;
    return Success(entries);
  }

  lemma {:induction false} NonEmptyPrefix(pieces: seq<seq<Byte>>, n: nat)
    requires n <= |pieces|
    ensures NonEmpty(pieces[..n]) <= NonEmpty(pieces)
    decreases |pieces|
  {
    if n == |pieces| {
      assert pieces[..n] == pieces;
    } else {
      NonEmptyPrefix(pieces[..|pieces| - 1], n);
      assert pieces[..|pieces| - 1][..n] == pieces[..n];
    }
  }

  // ----------------------------------------------------------------- rendering

  /** An entry with the mode it is listed under. */
  datatype Listing = Listing(mode: seq<Byte>, entry: Entry)

  predicate IsWord(s: seq<Byte>)
  {
    s != [] && forall i :: 0 <= i < |s| ==> 32 < s[i] < 128
  }

  /** What the format can say: a mode that fits the kind, and a size unless it is a submodule. */
  ghost predicate IsListing(listing: Listing)
  {
    && IsWellFormed(listing.entry) && IsWord(listing.mode)
    && (listing.entry.kind == Symlink <==> listing.mode == SYMLINK_MODE)
    && (listing.entry.kind == Submodule ==> listing.mode == SUBMODULE_MODE)
  }

  function Digits(n: nat): (digits: seq<Byte>)
    ensures IsNumber(digits) && ValueOf(digits) == n
  {
    if n < 10 then
      var single: seq<Byte> := [48 + n];
      assert single[..0] == [];
      single
    else
      var front, last: Byte := Digits(n / 10), 48 + n % 10;
      assert (front + [last])[..|front|] == front;
      front + [last]
  }

  function SizeField(size: Option<nat>): seq<Byte>
  {
    if size.None? then [DASH] else Digits(size.value)
  }

  function TypeOf(kind: Kind): seq<Byte>
  {
    if kind == Submodule then COMMIT else BLOB
  }

  function Spaces(n: int): seq<Byte>
  {
    if n <= 0 then [] else [SPACE] + Spaces(n - 1)
  }

  /** `mode type id` and the size right-aligned in seven columns. */
  function Header(listing: Listing): seq<Byte>
  {
    var size := SizeField(listing.entry.size);
    listing.mode + ([SPACE] + (TypeOf(listing.entry.kind) + ([SPACE] + (listing.entry.objectId
      + ([SPACE] + (Spaces(SIZE_WIDTH - |size|) + size))))))
  }

  function Line(listing: Listing): seq<Byte>
  {
    Header(listing) + [TAB] + listing.entry.path
  }

  function Rendered(listings: seq<Listing>): seq<Byte>
  {
    if listings == [] then [] else Line(listings[0]) + [NUL] + Rendered(listings[1..])
  }

  // ---------------------------------------------------------------- round trip

  lemma {:induction false} WordLengthOf(word: seq<Byte>, rest: seq<Byte>)
    requires IsWord(word) && (rest != [] ==> rest[0] == SPACE)
    ensures WordLength(word + rest) == |word|
  {
    assert forall i :: 0 <= i < |word| ==> (word + rest)[i] == word[i];
    assert rest != [] ==> (word + rest)[|word|] == rest[0];
  }

  lemma FieldsWord(word: seq<Byte>, rest: seq<Byte>)
    requires IsWord(word)
    ensures Fields(word) == [word]
    ensures Fields(word + ([SPACE] + rest)) == [word] + Fields(rest)
  {
    WordLengthOf(word, []);
    assert word + [] == word && word[..|word|] == word && word[|word|..] == [];
    WordLengthOf(word, [SPACE] + rest);
    var s := word + ([SPACE] + rest);
    assert s[..|word|] == word && s[|word|..] == [SPACE] + rest && s[0] == word[0];
    FieldsSpace(rest);
  }

  lemma FieldsSpace(rest: seq<Byte>)
    ensures Fields([SPACE] + rest) == Fields(rest)
  {
    assert ([SPACE] + rest)[1..] == rest;
  }

  lemma {:induction false} FieldsSpaces(n: int, rest: seq<Byte>)
    ensures Fields(Spaces(n) + rest) == Fields(rest)
  {
    if n <= 0 {
      assert Spaces(n) + rest == rest;
    } else {
      FieldsSpaces(n - 1, rest);
      assert Spaces(n) + rest == [SPACE] + (Spaces(n - 1) + rest);
      FieldsSpace(Spaces(n - 1) + rest);
    }
  }

  lemma NumberIsWord(digits: seq<Byte>)
    requires IsNumber(digits)
    ensures IsWord(digits)
  {}

  lemma SizeFieldWord(size: Option<nat>)
    ensures IsWord(SizeField(size))
    ensures SizeField(size) == [DASH] <==> size.None?
    ensures size.Some? && size.value <= U64_MAX ==> ParseSize(SizeField(size)) == size
  {
    if size.Some? {
      NumberIsWord(Digits(size.value));
    }
  }

  lemma FourFields(one: seq<Byte>, two: seq<Byte>, three: seq<Byte>, padding: int, four: seq<Byte>)
    requires IsWord(one) && IsWord(two) && IsWord(three) && IsWord(four)
    ensures Fields(one + ([SPACE] + (two + ([SPACE] + (three + ([SPACE] + (Spaces(padding) + four))))))) ==
      [one, two, three, four]
  {
    hide Fields, IsWord, Spaces;
    var sized := Spaces(padding) + four;
    var identified := three + ([SPACE] + sized);
    FieldsWord(one, two + ([SPACE] + identified));
    FieldsWord(two, identified);
    FieldsWord(three, sized);
    FieldsSpaces(padding, four);
    FieldsWord(four, []);
  }

  lemma HeaderFields(listing: Listing)
    requires IsListing(listing)
    ensures Fields(Header(listing)) ==
      [listing.mode, TypeOf(listing.entry.kind), listing.entry.objectId, SizeField(listing.entry.size)]
  {
    var size := SizeField(listing.entry.size);
    SizeFieldWord(listing.entry.size);
    assert IsWord(TypeOf(listing.entry.kind)) && IsWord(listing.entry.objectId);
    hide Fields, IsWord, SizeField, Spaces, IsListing, TypeOf;
    FourFields(listing.mode, TypeOf(listing.entry.kind), listing.entry.objectId, SIZE_WIDTH - |size|, size);
  }

  predicate IsPlain(s: seq<Byte>)
  {
    forall i :: 0 <= i < |s| ==> 32 <= s[i] < 128
  }

  lemma {:induction false} SpacesPlain(n: int)
    ensures IsPlain(Spaces(n))
  {
    if n > 0 {
      SpacesPlain(n - 1);
    }
  }

  lemma HeaderPlain(listing: Listing)
    requires IsListing(listing)
    ensures IsPlain(Header(listing)) && Header(listing) != []
  {
    SizeFieldWord(listing.entry.size);
    SpacesPlain(SIZE_WIDTH - |SizeField(listing.entry.size)|);
    assert IsPlain(TypeOf(listing.entry.kind)) && IsPlain(listing.entry.objectId);
    hide Spaces, SizeField, TypeOf;
  }

  lemma {:induction false} PlainIsValid(s: seq<Byte>)
    requires IsPlain(s)
    ensures ValidUpTo(s) == |s|
  {
    if s != [] {
      assert IsCharacter(s[..1]);
      OneFront(s, 1);
      PlainIsValid(s[1..]);
    }
  }

  lemma FirstTabAt(header: seq<Byte>, path: seq<Byte>)
    requires IsPlain(header)
    ensures FirstTab(header + [TAB] + path) == |header|
  {
    var record := header + [TAB] + path;
    assert record[|header|] == TAB;
    assert forall i :: 0 <= i < |header| ==> record[i] == header[i];
  }

  /** A rendered entry is read back. */
  lemma LineParses(listing: Listing)
    requires IsListing(listing)
    ensures ParseRecord(Line(listing)) == Success(listing.entry) && Line(listing) != [] && NUL !in Line(listing)
  {
    var header, entry := Header(listing), listing.entry;
    HeaderPlain(listing);
    HeaderFields(listing);
    PlainIsValid(header);
    FirstTabAt(header, entry.path);
    SizeFieldWord(entry.size);
    TextIsValid(entry.path);
    assert Line(listing)[..|header|] == header && Line(listing)[|header| + 1..] == entry.path;
    assert KindOf(listing.mode, TypeOf(entry.kind)) == Some(entry.kind);
    assert NUL !in header && NUL !in entry.path && Line(listing) != [];
    hide Header, Fields, SizeField, IsText, ValidUpTo, Split, KindOf, TypeOf, FirstTab, Line, IsPlain;
  }

  function LinesOf(listings: seq<Listing>): seq<seq<Byte>>
  {
    if listings == [] then [] else [Line(listings[0])] + LinesOf(listings[1..])
  }

  lemma {:induction false} NonEmptyFront(first: seq<Byte>, rest: seq<seq<Byte>>)
    requires first != []
    ensures NonEmpty([first] + rest) == [first] + NonEmpty(rest)
    decreases |rest|
  {
    if rest == [] {
      assert [first] + rest == [first] && [first][..0] == [];
    } else {
      assert ([first] + rest)[..|rest|] == [first] + rest[..|rest| - 1];
      NonEmptyFront(first, rest[..|rest| - 1]);
    }
  }

  lemma {:induction false} RenderedRecords(listings: seq<Listing>)
    requires forall i :: 0 <= i < |listings| ==> IsListing(listings[i])
    ensures Records(Rendered(listings)) == LinesOf(listings)
  {
    hide IsListing;
    if listings == [] {
      var pieces := Split(Rendered(listings), NUL);
      assert pieces == [[]] && pieces[..0] == [];
      assert NonEmpty(pieces) == NonEmpty(pieces[..0]);
    } else {
      RenderedRecords(listings[1..]);
      LineParses(listings[0]);
      SplitPrefix(Line(listings[0]), Rendered(listings[1..]), NUL);
      NonEmptyFront(Line(listings[0]), Split(Rendered(listings[1..]), NUL));
    }
  }

  lemma {:induction false} LineAt(listings: seq<Listing>, i: nat)
    requires i < |listings|
    ensures |LinesOf(listings)| == |listings| && LinesOf(listings)[i] == Line(listings[i])
  {
    if i > 0 {
      LineAt(listings[1..], i - 1);
    } else if |listings| > 1 {
      LineAt(listings[1..], 0);
    }
  }

  lemma {:induction false} RenderedParses(listings: seq<Listing>)
    requires forall i :: 0 <= i < |listings| ==> IsListing(listings[i])
    ensures |Records(Rendered(listings))| == |listings|
    ensures forall i :: 0 <= i < |listings| ==>
      ParseRecord(Records(Rendered(listings))[i]) == Success(listings[i].entry)
  {
    RenderedRecords(listings);
    hide IsListing, Records, Rendered;
    if listings != [] {
      LineAt(listings, 0);
    }
    forall i | 0 <= i < |listings| ensures ParseRecord(Records(Rendered(listings))[i]) == Success(listings[i].entry) {
      LineAt(listings, i);
      LineParses(listings[i]);
    }
  }

  /** There is one outcome of a parse: all records succeed, or one is the first that fails. */
  lemma {:induction false} ParseIsUnique(output: seq<Byte>, entries: seq<Entry>, result: Result<seq<Entry>, GitError>)
    requires |Records(output)| == |entries|
    requires forall i :: 0 <= i < |entries| ==> ParseRecord(Records(output)[i]) == Success(entries[i])
    requires IsParse(output, result)
    ensures result == Success(entries)
  {
    hide ParseRecord, Records, IsWellFormed;
    if result.Success? {
      assert result.value == entries;
    }
  }

  /** Parsing undoes printing, for any list of entries the format can say. */
  lemma {:induction false} ParsingUndoesPrinting(listings: seq<Listing>, entries: seq<Entry>,
                                                 result: Result<seq<Entry>, GitError>)
    requires forall i :: 0 <= i < |listings| ==> IsListing(listings[i])
    requires |entries| == |listings| && forall i :: 0 <= i < |entries| ==> entries[i] == listings[i].entry
    requires IsParse(Rendered(listings), result)
    ensures result == Success(entries)
  {
    RenderedParses(listings);
    hide *;
    ParseIsUnique(Rendered(listings), entries, result);
  }

  function ListingOf(entry: Entry): Listing
  {
    Listing(if entry.kind == Symlink then SYMLINK_MODE else if entry.kind == Submodule then SUBMODULE_MODE
            else FILE_MODE, entry)
  }

  lemma EntryCanBeListed(entry: Entry)
    requires IsWellFormed(entry)
    ensures IsListing(ListingOf(entry)) && ListingOf(entry).entry == entry
  {
    assert FILE_MODE[1] != SYMLINK_MODE[1];
  }

  /** Whatever bytes parse, their entries can be printed again, and that parses to the same entries. */
  lemma {:induction false} PrintingUndoesParsing(output: seq<Byte>, entries: seq<Entry>,
                                                 listings: seq<Listing>, result: Result<seq<Entry>, GitError>)
    requires IsParse(output, Success(entries))
    requires |listings| == |entries| && forall i :: 0 <= i < |listings| ==> listings[i] == ListingOf(entries[i])
    requires IsParse(Rendered(listings), result)
    ensures result == Success(entries)
  {
    assert forall i :: 0 <= i < |entries| ==> IsWellFormed(entries[i]);
    hide *;
    forall i | 0 <= i < |listings| ensures IsListing(listings[i]) && listings[i].entry == entries[i] {
      EntryCanBeListed(entries[i]);
    }
    ParsingUndoesPrinting(listings, entries, result);
  }
}
