/** The 8.3 short name stored in the first eleven bytes of a directory
    entry: eight name bytes and three extension bytes, space padded. */
module ShortName {
  import opened Wrappers
  import opened Bytes
  import opened StrUtil

  /** The characters `checkValidChars` refuses anywhere in a short name. */
  const ILLEGAL_CHARS: set<Char8> :=
    {0x22 as char, 0x2A as char, 0x2B as char, 0x2C as char, 0x2E as char, 0x2F as char,
     0x3A as char, 0x3B as char, 0x3C as char, 0x3D as char, 0x3E as char, 0x3F as char,
     0x5B as char, 0x5C as char, 0x5D as char, 0x7C as char}

  /** The escape for a name whose first byte is really 0xE5 (the deleted
      mark). */
  const KANJI_ESCAPE: int := 0x05

  /** The eleven stored bytes. */
  type NameBytes = s: Str | |s| == 11 witness "           "

  datatype ShortName = ShortName(nameBytes: NameBytes)

  function Spaces(n: nat): (r: Str)
    ensures |r| == n && forall j :: 0 <= j < n ==> r[j] == ' '
  {
    seq(n, _ => ' ')
  }

  /** A byte `checkValidChars` accepts at any position: not a multi-byte
      value (with a signed `char`, bytes from 0x80 fail the `& 0xff` test),
      not a control character other than 0x05, and not an illegal one. */
  predicate LegalChar(c: Char8)
  {
    c as int < 0x80 && !(c as int < 0x20 && c as int != KANJI_ESCAPE) && c !in ILLEGAL_CHARS
  }

  predicate AllLegal(s: Str)
  {
    forall j :: 0 <= j < |s| ==> LegalChar(s[j])
  }

  /** Upper-casing never changes whether a character is legal. */
  lemma UpperLegal(c: Char8)
    ensures LegalChar(UpperChar(c)) == LegalChar(c)
  {
  }

  /** The position at which the loop of `checkValidChars`, started at `i`,
      throws, or `None` when it runs to the end. */
  function FirstIllegal(chars: Str, i: nat): (r: Option<nat>)
    requires i <= |chars|
    ensures r.None? <==> forall j :: i <= j < |chars| ==> LegalChar(chars[j])
    ensures r.Some? ==> i <= r.value < |chars| && !LegalChar(chars[r.value])
    ensures r.Some? ==> forall j :: i <= j < r.value ==> LegalChar(chars[j])
    decreases |chars| - i
  {
    if i == |chars| then None
    else if !LegalChar(chars[i]) then Some(i)
    else FirstIllegal(chars, i + 1)
  }

  /** `checkValidChars`: no leading space, and every byte legal. */
  function CheckValidChars(chars: Str): (r: Result<()>)
    requires |chars| > 0
    ensures r.Ok? <==> chars[0] != ' ' && AllLegal(chars)
    ensures r.Err? ==> r.fault == IllegalCharacter
  {
    if chars[0] == ' ' then Err(IllegalCharacter)
    else if FirstIllegal(chars, 0).Some? then Err(IllegalCharacter)
    else Ok(())
  }

  /** `toCharArray(name, ext)`: a name of 1 to 8 and an extension of at
      most 3 characters, each left-aligned in its space-padded field. */
  function ToCharArray(name: Str, ext: Str): (r: Result<NameBytes>)
    ensures r.Ok? <==> 1 <= |name| <= 8 && |ext| <= 3
    ensures r.Err? ==> r.fault == BadNameLength
    ensures r.Ok? ==> r.value[..|name|] == name && r.value[8..8 + |ext|] == ext
    ensures r.Ok? ==> forall j :: |name| <= j < 8 || 8 + |ext| <= j < 11 ==> r.value[j] == ' '
  {
    if |name| < 1 || |name| > 8 then Err(BadNameLength)
    else if |ext| > 3 then Err(BadNameLength)
    else
      var bytes := name + Spaces(8 - |name|) + ext + Spaces(3 - |ext|);
      assert bytes[..|name|] == name;
      assert bytes[8..8 + |ext|] == ext;
      Ok(bytes)
  }

  /** `nameExt.find_last_of('.')` and the two substrings around it; the
      extension is empty when there is no dot. */
  function SplitAtLastDot(s: Str): (r: (Str, Str))
    ensures '.' !in s ==> r == (s, [])
    ensures '.' in s ==> r.0 + ['.'] + r.1 == s && '.' !in r.1
  {
    match LastIndexOf(s, '.')
    case None => (s, [])
    case Some(i) =>
      assert s == s[..i] + ['.'] + s[i + 1..];
      (s[..i], s[i + 1..])
  }

  /** The explicit constructor `ShortName(nameExt)`: at most 12
      characters, split at the last dot, both parts upper-cased, then the
      length and character checks. */
  function FromString(nameExt: Str): (r: Result<ShortName>)
    ensures |nameExt| > 12 ==> r == Err(NameTooLong)
    ensures r.Ok? ==> 1 <= |nameExt| <= 12
    ensures r.Ok? ==> r.value.nameBytes[0] != ' ' && AllLegal(r.value.nameBytes)
  {
    if |nameExt| > 12 then Err(NameTooLong)
    else
      var parts := SplitAtLastDot(nameExt);
      var bytes :- ToCharArray(ToUpper(parts.0), ToUpper(parts.1));
      var _ :- CheckValidChars(bytes);
      Ok(ShortName(bytes))
  }

  /** The two-argument constructor: only the lengths are checked. */
  function Of(name: Str, ext: Str): (r: Result<ShortName>)
    ensures r.Ok? <==> 1 <= |name| <= 8 && |ext| <= 3
    ensures r.Err? ==> r.fault == BadNameLength
  {
    var bytes :- ToCharArray(name, ext);
    Ok(ShortName(bytes))
  }

  /** `DOT()`: the name of a directory's self entry. */
  function Dot(): (d: ShortName)
    ensures Of(".", []) == Ok(d)
  {
    var r := Of(".", []);
    r.value
  }

  /** `DOT_DOT()`: the name of a directory's parent entry. */
  function DotDot(): (d: ShortName)
    ensures Of("..", []) == Ok(d)
  {
    var r := Of("..", []);
    r.value
  }

  /** `get(name)`: the dot names, or the explicit constructor. */
  function Get(name: Str): (r: Result<ShortName>)
    ensures name == "." ==> r == Ok(Dot())
    ensures name == ".." ==> r == Ok(DotDot())
    ensures name != "." && name != ".." ==> r == FromString(name)
  {
    if name == "." then Ok(Dot())
    else if name == ".." then Ok(DotDot())
    else FromString(name)
  }

  /** `canConvert(nameExt)`: whether `get` succeeds. */
  function CanConvert(nameExt: Str): (b: bool)
    ensures b <==> Get(nameExt).Ok?
  {
    Get(nameExt).Ok?
  }

  /** `parse(data)`: the eleven stored bytes, with a leading 0x05 read as
      0xE5.  The source trims the two parts but discards the results, so
      the fields are taken as stored and parsing never fails. */
  function Parse(data: seq<Byte>): (r: ShortName)
    requires |data| >= 11
    ensures r.nameBytes[1..] == StrOf(data[1..11])
  {
    var bytes := StrOf(data[..11]);
    assert bytes[1..] == StrOf(data[1..11]);
    if data[0] == KANJI_ESCAPE then ShortName(bytes[0 := 0xE5 as char]) else ShortName(bytes)
  }

  /** `write(dest)`: the eleven bytes go to the front of `dest`. */
  function Write(sn: ShortName, dest: seq<Byte>): (r: seq<Byte>)
    requires |dest| >= 11
    ensures |r| == |dest| && r[11..] == dest[11..]
    ensures StrOf(r[..11]) == sn.nameBytes
  {
    var r := BytesOf(sn.nameBytes) + dest[11..];
    assert r[..11] == BytesOf(sn.nameBytes);
    StrOfBytesOf(sn.nameBytes);
    r
  }

  /** Writing a short name and parsing it back gives the same name, unless
      it starts with the 0x05 escape, which reads back as 0xE5. */
  lemma {:induction false} ParseWrite(sn: ShortName, dest: seq<Byte>)
    requires |dest| >= 11
    ensures sn.nameBytes[0] as int != KANJI_ESCAPE ==> Parse(Write(sn, dest)) == sn
    ensures sn.nameBytes[0] as int == KANJI_ESCAPE ==>
              Parse(Write(sn, dest)).nameBytes == sn.nameBytes[0 := 0xE5 as char]
  {
    var w := Write(sn, dest);
    assert StrOf(w[..11]) == sn.nameBytes;
    assert w[0] == ByteOf(sn.nameBytes[0]) by {
      assert StrOf(w[..11])[0] == CharOf(w[0]);
    }
  }

  /** `asSimpleString()`: the NUL-free name and extension fields, trimmed,
      joined with a dot when the extension is not empty. */
  function AsSimpleString(sn: ShortName): (r: Str)
  {
    var name0 := DropNul(sn.nameBytes[..8]);
    var name1 := if sn.nameBytes[0] as int == KANJI_ESCAPE then [0xE5 as char] + name0[1..] else name0;
    var name := TrimDefault(name1);
    var ext := TrimDefault(DropNul(sn.nameBytes[8..]));
    if ext == [] then name else name + ['.'] + ext
  }

  /** `equals`: the stored bytes agree. */
  function Equals(a: ShortName, b: ShortName): (r: bool)
    ensures r <==> a == b
  {
    |a.nameBytes| == |b.nameBytes| && forall i :: 0 <= i < |a.nameBytes| ==> a.nameBytes[i] == b.nameBytes[i]
  }

  /** The dot names read back as "." and "..". */
  lemma DotsReadBack()
    ensures AsSimpleString(Dot()) == "."
    ensures AsSimpleString(DotDot()) == ".."
  {
    DotNamesReadBack(Dot(), ".");
    DotNamesReadBack(DotDot(), "..");
  }

  lemma {:induction false} DotNamesReadBack(sn: ShortName, dots: Str)
    requires dots == "." || dots == ".."
    requires Of(dots, []) == Ok(sn)
    ensures AsSimpleString(sn) == dots
  {
    var d := sn.nameBytes;
    assert d[..8] == dots + Spaces(8 - |dots|);
    assert d[8..] == [] + Spaces(3);
    FieldReadsBack(dots, 8);
    FieldReadsBack([], 3);
  }

  /** A name without a dot can be converted exactly when it has 1 to 8
      characters, does not start with a space and has only legal
      characters. */
  lemma {:induction false} CanConvertWithoutDot(s: Str)
    requires '.' !in s
    ensures CanConvert(s) <==> 1 <= |s| <= 8 && s[0] != ' ' && AllLegal(s)
  {
    assert s != "." && s != ".." by {
      assert "."[0] == '.' && ".."[0] == '.';
    }
    if 1 <= |s| <= 8 {
      var u := ToUpper(s);
      var bytes := ToCharArray(u, []).value;
      assert bytes[0] == UpperChar(s[0]);
      assert AllLegal(bytes) <==> AllLegal(s) by {
        forall j | 0 <= j < |s| ensures LegalChar(bytes[j]) == LegalChar(s[j]) {
          UpperLegal(s[j]);
        }
        if AllLegal(s) {
          forall j | 0 <= j < 11 ensures LegalChar(bytes[j]) {
            if j < |s| { UpperLegal(s[j]); }
          }
        }
      }
    }
  }

  /** A name the explicit constructor accepts has at most one dot: any
      earlier dot would land in the name field, where dots are illegal. */
  lemma {:induction false} AtMostOneDot(s: Str)
    requires FromString(s).Ok?
    ensures forall j :: 0 <= j < |s| && s[j] == '.' ==> LastIndexOf(s, '.') == Some(j)
  {
    if '.' in s {
      NameField(s);
      OneDotBeforeLegal(s, FromString(s).value.nameBytes);
    }
  }

  /** A name whose part before the last dot, upper-cased, heads a legal
      field has no other dot. */
  lemma OneDotBeforeLegal(s: Str, bytes: Str)
    requires '.' in s && AllLegal(bytes)
    requires var name := SplitAtLastDot(s).0; |name| <= |bytes| && bytes[..|name|] == ToUpper(name)
    ensures forall j :: 0 <= j < |s| && s[j] == '.' ==> LastIndexOf(s, '.') == Some(j)
  {
    var last := LastIndexOf(s, '.');
    var k := last.value;
    assert SplitAtLastDot(s).0 == s[..k];
    LegalHasNoDot(bytes, s[..k]);
    forall j | 0 <= j < |s| && s[j] == '.' ensures last == Some(j) {
      if j != k {
        assert false;
      }
    }
  }

  /** A part whose upper-cased form heads a legal field has no dot. */
  lemma LegalHasNoDot(bytes: Str, x: Str)
    requires AllLegal(bytes) && |x| <= |bytes| && bytes[..|x|] == ToUpper(x)
    ensures forall j :: 0 <= j < |x| ==> x[j] != '.'
  {
    forall j | 0 <= j < |x| ensures x[j] != '.' {
      assert bytes[j] == UpperChar(x[j]);
      UpperLegal(x[j]);
    }
  }

  /** An accepted name's name field starts with the upper-cased part
      before the last dot. */
  lemma NameField(s: Str)
    requires FromString(s).Ok?
    ensures var name := SplitAtLastDot(s).0;
            |name| <= |FromString(s).value.nameBytes| && FromString(s).value.nameBytes[..|name|] == ToUpper(name)
  {
    var parts := SplitAtLastDot(s);
    assert ToCharArray(ToUpper(parts.0), ToUpper(parts.1)) == Ok(FromString(s).value.nameBytes);
  }

  /** A field content that reads back unchanged: no spaces, only legal
      characters. */
  predicate Plain(x: Str)
  {
    ' ' !in x && AllLegal(x)
  }

  /** A plain field content, space padded, reads back as itself. */
  lemma {:induction false} PaddedField(x: Str, n: nat, field: Str)
    requires Plain(x) && |x| <= n && field == x + Spaces(n - |x|)
    ensures TrimDefault(DropNul(field)) == x
  {
    PlainEdges(x);
    FieldReadsBack(x, n);
  }

  /** A field content without NUL bytes and without blanks at its ends,
      space padded, reads back as itself. */
  lemma {:induction false} FieldReadsBack(x: Str, n: nat)
    requires |x| <= n && forall j :: 0 <= j < |x| ==> x[j] != 0 as char
    requires x != [] ==> x[0] !in DefaultTrimSet && x[|x| - 1] !in DefaultTrimSet
    ensures TrimDefault(DropNul(x + Spaces(n - |x|))) == x
  {
    var f := x + Spaces(n - |x|);
    assert forall j :: 0 <= j < |f| ==> f[j] != 0 as char by {
      forall j | 0 <= j < |f| ensures f[j] != 0 as char {
        if j < |x| { assert f[j] == x[j]; }
      }
    }
    assert DropNul(f) == f;
    TrimPadded(x, Spaces(n - |x|), DefaultTrimSet);
  }

  lemma {:induction false} PlainEdges(x: Str)
    requires Plain(x)
    ensures forall j :: 0 <= j < |x| ==> x[j] != 0 as char
    ensures x != [] ==> x[0] !in DefaultTrimSet && x[|x| - 1] !in DefaultTrimSet
  {
    forall j | 0 <= j < |x| ensures x[j] != 0 as char {
      assert LegalChar(x[j]);
    }
    if x != [] {
      assert LegalChar(x[0]) && LegalChar(x[|x| - 1]);
    }
  }

  /** The upper-cased copy of a space-free part that sits at the front of
      a legal field is plain. */
  lemma {:induction false} UpperPlain(x: Str, field: Str)
    requires ' ' !in x && |x| <= |field| && field[..|x|] == ToUpper(x) && AllLegal(field)
    ensures Plain(ToUpper(x))
  {
    var u := ToUpper(x);
    forall j | 0 <= j < |u| ensures u[j] != ' ' && LegalChar(u[j]) {
      assert u[j] == field[j];
      assert x[j] != ' ';
    }
  }

  /** A short name whose fields hold plain contents, space padded, reads
      back as those contents joined by a dot. */
  lemma {:induction false} ReadBackFields(sn: ShortName, name: Str, ext: Str)
    requires Plain(name) && Plain(ext) && 1 <= |name| <= 8 && |ext| <= 3
    requires sn.nameBytes[..8] == name + Spaces(8 - |name|)
    requires sn.nameBytes[8..] == ext + Spaces(3 - |ext|)
    requires name[0] as int != KANJI_ESCAPE
    ensures AsSimpleString(sn) == if ext == [] then name else name + ['.'] + ext
  {
    assert sn.nameBytes[0] == name[0];
    PaddedField(name, 8, sn.nameBytes[..8]);
    PaddedField(ext, 3, sn.nameBytes[8..]);
    SimpleOfFields(sn, name, ext);
  }

  /** `asSimpleString()` joins what the two fields read back as. */
  lemma SimpleOfFields(sn: ShortName, name: Str, ext: Str)
    requires sn.nameBytes[0] as int != KANJI_ESCAPE
    requires TrimDefault(DropNul(sn.nameBytes[..8])) == name && TrimDefault(DropNul(sn.nameBytes[8..])) == ext
    ensures AsSimpleString(sn) == if ext == [] then name else name + ['.'] + ext
  {
  }

  /** The fields the explicit constructor fills: the upper-cased parts
      around the last dot, plain when the input has no spaces. */
  lemma {:induction false} FromStringFields(s: Str)
    requires FromString(s).Ok? && ' ' !in s
    ensures var parts := SplitAtLastDot(s);
            var bytes := FromString(s).value.nameBytes;
            && Plain(ToUpper(parts.0)) && Plain(ToUpper(parts.1))
            && 1 <= |parts.0| <= 8 && |parts.1| <= 3
            && bytes[..8] == ToUpper(parts.0) + Spaces(8 - |parts.0|)
            && bytes[8..] == ToUpper(parts.1) + Spaces(3 - |parts.1|)
  {
    var parts := SplitAtLastDot(s);
    var name, ext := ToUpper(parts.0), ToUpper(parts.1);
    var bytes := FromString(s).value.nameBytes;
    assert ToCharArray(name, ext) == Ok(bytes);
    PaddedFields(name, ext, bytes);
    UpperPlain(parts.0, bytes);
    UpperPlain(parts.1, bytes[8..]);
  }

  /** The two fields `ToCharArray` fills, each its content space padded. */
  lemma PaddedFields(name: Str, ext: Str, bytes: NameBytes)
    requires ToCharArray(name, ext) == Ok(bytes)
    ensures bytes[..8] == name + Spaces(8 - |name|) && bytes[8..] == ext + Spaces(3 - |ext|)
    ensures bytes[8..][..|ext|] == ext
  {
    assert bytes[..8] == name + Spaces(8 - |name|);
    assert bytes[8..] == ext + Spaces(3 - |ext|);
  }

  /** Reading back the name the explicit constructor built gives the
      upper-cased input, for an input without spaces that does not start
      with the 0x05 escape and does not end in a dot. */
  lemma {:induction false} RoundTrip(s: Str)
    requires FromString(s).Ok?
    requires ' ' !in s
    requires s[0] as int != KANJI_ESCAPE && s[|s| - 1] != '.'
    ensures AsSimpleString(FromString(s).value) == ToUpper(s)
  {
    var parts := SplitAtLastDot(s);
    FromStringFields(s);
    ReadBackFields(FromString(s).value, ToUpper(parts.0), ToUpper(parts.1));
    UpperJoin(s);
  }

  /** Upper-casing commutes with splitting at the last dot; the extension
      is empty only when there is no dot or the name ends in one. */
  lemma {:induction false} UpperJoin(s: Str)
    requires s != [] && s[0] as int != KANJI_ESCAPE && s[|s| - 1] != '.'
    ensures var parts := SplitAtLastDot(s);
            var name, ext := ToUpper(parts.0), ToUpper(parts.1);
            && (name != [] ==> name[0] as int != KANJI_ESCAPE)
            && ToUpper(s) == if ext == [] then name else name + ['.'] + ext
  {
    var parts := SplitAtLastDot(s);
    var name, ext := ToUpper(parts.0), ToUpper(parts.1);
    if '.' in s {
      assert |parts.1| > 0 by {
        assert s[|s| - 1] != '.';
      }
      ToUpperAppend(parts.0 + ['.'], parts.1);
      ToUpperAppend(parts.0, ['.']);
      assert ToUpper(['.']) == ['.'];
      if name != [] {
        assert s[0] == (parts.0 + ['.'] + parts.1)[0] == parts.0[0];
      }
    }
  }
}
