/** The Akai part of a name: up to eight more characters of an Akai file
    name, stored space padded in bytes 12..19 of a directory entry, a
    range FAT leaves to attributes and timestamps. */
module AkaiPart {
  import opened Wrappers
  import opened Bytes
  import opened StrUtil
  import ShortName

  /** The first characters of the strings in `AkaiPart::validChars_`.  The
      table is defined outside the modelled files, so its contents are
      left open. */
  const AkaiValidChars: set<Char8>

  /** Offset and width of the field in a directory entry. */
  const FIELD_OFFSET: int := 12
  const FIELD_LENGTH: int := 8

  type PartBytes = s: Str | |s| == 8 witness "        "

  datatype AkaiPart = AkaiPart(nameBytes: PartBytes)

  /** `checkValidChars`: the per-byte rules of the short name check,
      without its leading-space rule. */
  function CheckValidChars(chars: Str): (r: Result<()>)
    ensures r.Ok? <==> ShortName.AllLegal(chars)
    ensures r.Err? ==> r.fault == IllegalCharacter
  {
    if ShortName.FirstIllegal(chars, 0).Some? then Err(IllegalCharacter) else Ok(())
  }

  /** The short name check is the Akai part check plus the rule against
      a leading space. */
  lemma ShortNameCheckIsStricter(chars: Str)
    requires |chars| > 0
    ensures ShortName.CheckValidChars(chars).Ok? <==> chars[0] != ' ' && CheckValidChars(chars).Ok?
  {
  }

  /** The explicit constructor: at most eight characters, space padded,
      then the character check. */
  function New(akaiPart: Str): (r: Result<AkaiPart>)
    ensures |akaiPart| > FIELD_LENGTH ==> r == Err(NameTooLong)
    ensures r.Ok? <==> |akaiPart| <= FIELD_LENGTH && ShortName.AllLegal(akaiPart)
    ensures r.Err? ==> r.fault in {NameTooLong, IllegalCharacter}
    ensures r.Ok? ==> r.value.nameBytes == akaiPart + ShortName.Spaces(FIELD_LENGTH - |akaiPart|)
  {
    if |akaiPart| > FIELD_LENGTH then Err(NameTooLong)
    else
      var bytes := akaiPart + ShortName.Spaces(FIELD_LENGTH - |akaiPart|);
      PaddedLegal(akaiPart, FIELD_LENGTH);
      var _ :- CheckValidChars(bytes);
      Ok(AkaiPart(bytes))
  }

  /** Space padding never changes whether a string is legal. */
  lemma {:induction false} PaddedLegal(s: Str, n: nat)
    requires |s| <= n
    ensures ShortName.AllLegal(s + ShortName.Spaces(n - |s|)) <==> ShortName.AllLegal(s)
  {
    var p := s + ShortName.Spaces(n - |s|);
    if ShortName.AllLegal(p) {
      forall j | 0 <= j < |s| ensures ShortName.LegalChar(s[j]) {
        assert p[j] == s[j];
      }
    }
  }

  /** `isValidAkaiPart`: every character is in the table. */
  predicate IsValidAkaiPart(s: Str)
  {
    forall j :: 0 <= j < |s| ==> s[j] in AkaiValidChars
  }

  /** `parse(data)`: the field as stored when all its characters are in
      the table, otherwise eight spaces; then the constructor, which can
      still reject a table character that is illegal in a short name. */
  function Parse(data: seq<Byte>): (r: Result<AkaiPart>)
    requires |data| >= FIELD_OFFSET + FIELD_LENGTH
    ensures !IsValidAkaiPart(StrOf(data[FIELD_OFFSET..FIELD_OFFSET + FIELD_LENGTH])) ==>
              r == Ok(AkaiPart(ShortName.Spaces(FIELD_LENGTH)))
    ensures r.Ok? && IsValidAkaiPart(StrOf(data[FIELD_OFFSET..FIELD_OFFSET + FIELD_LENGTH])) ==>
              r.value.nameBytes == StrOf(data[FIELD_OFFSET..FIELD_OFFSET + FIELD_LENGTH])
  {
    var field := StrOf(data[FIELD_OFFSET..FIELD_OFFSET + FIELD_LENGTH]);
    var akaiPart := if IsValidAkaiPart(field) then field else ShortName.Spaces(FIELD_LENGTH);
    BlankPart();
    New(akaiPart)
  }

  /** Eight spaces make a valid, blank Akai part. */
  lemma BlankPart()
    ensures New(ShortName.Spaces(FIELD_LENGTH)) == Ok(AkaiPart(ShortName.Spaces(FIELD_LENGTH)))
  {
    var b := ShortName.Spaces(FIELD_LENGTH);
    assert ShortName.AllLegal(b) by {
      forall j | 0 <= j < |b| ensures ShortName.LegalChar(b[j]) {
        assert b[j] == ' ';
      }
    }
    assert b + ShortName.Spaces(0) == b;
  }

  /** `write(dest)`: the eight bytes go to offsets 12..19. */
  function Write(ap: AkaiPart, dest: seq<Byte>): (r: seq<Byte>)
    requires |dest| >= FIELD_OFFSET + FIELD_LENGTH
    ensures |r| == |dest|
    ensures r[..FIELD_OFFSET] == dest[..FIELD_OFFSET]
    ensures r[FIELD_OFFSET + FIELD_LENGTH..] == dest[FIELD_OFFSET + FIELD_LENGTH..]
    ensures StrOf(r[FIELD_OFFSET..FIELD_OFFSET + FIELD_LENGTH]) == ap.nameBytes
  {
    var r := dest[..FIELD_OFFSET] + BytesOf(ap.nameBytes) + dest[FIELD_OFFSET + FIELD_LENGTH..];
    assert r[FIELD_OFFSET..FIELD_OFFSET + FIELD_LENGTH] == BytesOf(ap.nameBytes);
    StrOfBytesOf(ap.nameBytes);
    r
  }

  /** `asSimpleString()`: the field trimmed by `AkaiStrUtil::trim`.  That
      helper is not part of this model; the set of characters it strips
      is the parameter `ws`. */
  function AsSimpleString(ap: AkaiPart, ws: set<Char8>): (r: Str)
    ensures |r| <= FIELD_LENGTH
  {
    Trim(ap.nameBytes, ws)
  }

  /** A field holding a character outside the table reads back as the
      empty Akai part, when the trim strips spaces. */
  lemma {:induction false} InvalidFieldReadsEmpty(data: seq<Byte>, ws: set<Char8>)
    requires |data| >= FIELD_OFFSET + FIELD_LENGTH && ' ' in ws
    requires !IsValidAkaiPart(StrOf(data[FIELD_OFFSET..FIELD_OFFSET + FIELD_LENGTH]))
    ensures Parse(data).Ok? && AsSimpleString(Parse(data).value, ws) == []
  {
    TrimPadded([], ShortName.Spaces(FIELD_LENGTH), ws);
    assert [] + ShortName.Spaces(FIELD_LENGTH) == ShortName.Spaces(FIELD_LENGTH);
  }

  /** An Akai part written and parsed back reads as what was stored, when
      its characters are all in the table (the padding spaces too, unless
      there is none) and it has no blanks at its ends. */
  lemma {:induction false} RoundTrip(p: Str, dest: seq<Byte>, ws: set<Char8>)
    requires New(p).Ok? && |dest| >= FIELD_OFFSET + FIELD_LENGTH
    requires IsValidAkaiPart(p) && (|p| == FIELD_LENGTH || ' ' in AkaiValidChars)
    requires ' ' in ws && (p != [] ==> p[0] !in ws && p[|p| - 1] !in ws)
    ensures Parse(Write(New(p).value, dest)).Ok?
    ensures AsSimpleString(Parse(Write(New(p).value, dest)).value, ws) == p
  {
    var ap := New(p).value;
    var w := Write(ap, dest);
    var field := StrOf(w[FIELD_OFFSET..FIELD_OFFSET + FIELD_LENGTH]);
    assert field == ap.nameBytes;
    assert IsValidAkaiPart(field) by {
      forall j | 0 <= j < |field| ensures field[j] in AkaiValidChars {
        if j < |p| { assert field[j] == p[j]; }
      }
    }
    assert New(field) == Ok(ap) by {
      PaddedLegal(field, FIELD_LENGTH);
      assert field + ShortName.Spaces(0) == field;
    }
    TrimPadded(p, ShortName.Spaces(FIELD_LENGTH - |p|), ws);
  }
}
