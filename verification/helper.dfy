/** The web UI's display helpers: shortening qualified names for display,
    turning a character offset into a line number, and the URL fragment that
    links to a position in a file. */
module Helper {
  import opened Results
  import Text
  import PageController

  /** The type name without its package: the text after the last '.', or the
      whole name when it has none. */
  function DropPackageName(fullTypeName: string): (r: string)
    ensures '.' !in r
    ensures '.' !in fullTypeName ==> r == fullTypeName
    ensures '.' in fullTypeName ==> exists package :: fullTypeName == package + "." + r
  {
    var r := Text.AfterLast(fullTypeName, '.');
    if '.' in fullTypeName then
      var package := fullTypeName[..|fullTypeName| - |r| - 1];
      assert fullTypeName == package + "." + r;
      r
    else r
  }

  /** The member name without package and class: the text after the last '#',
      or the whole name when it has none. */
  function DropPackageAndClassName(fullMemberName: string): (r: string)
    ensures '#' !in r
    ensures '#' !in fullMemberName ==> r == fullMemberName
    ensures '#' in fullMemberName ==> exists owner :: fullMemberName == owner + "#" + r
  {
    var r := Text.AfterLast(fullMemberName, '#');
    if '#' in fullMemberName then
      var owner := fullMemberName[..|fullMemberName| - |r| - 1];
      assert fullMemberName == owner + "#" + r;
      r
    else r
  }

  /** Dropping the package undoes qualification by any package. */
  lemma DropPackageNameOfQualified(package: string, simpleName: string)
    requires '.' !in simpleName
    ensures DropPackageName(package + "." + simpleName) == simpleName
  {
    assert package + "." + simpleName == package + ['.'] + simpleName;
    Text.AfterLastOfSuffix(package, '.', simpleName);
  }

  /** Dropping package and class undoes `Owner#member` for any owner. */
  lemma DropPackageAndClassNameOfMember(owner: string, memberName: string)
    requires '#' !in memberName
    ensures DropPackageAndClassName(owner + "#" + memberName) == memberName
  {
    assert owner + "#" + memberName == owner + ['#'] + memberName;
    Text.AfterLastOfSuffix(owner, '#', memberName);
  }

  /** Shortening is idempotent. */
  lemma DropPackageNameIdempotent(fullTypeName: string)
    ensures DropPackageName(DropPackageName(fullTypeName)) == DropPackageName(fullTypeName)
  {
  }

  /** A JavaScript string is a sequence of UTF-16 code units, and its
      `length`, its offsets and `substring` all count code units. */
  newtype CodeUnit = x: int | 0 <= x < 0x1_0000

  const LineFeed: CodeUnit := 0x0A

  /** The UTF-16 encoding of a text: a character outside the Basic
      Multilingual Plane becomes a surrogate pair, every other character one
      code unit of the same value. */
  function Utf16(s: string): (r: seq<CodeUnit>)
    ensures |r| >= |s|
    ensures multiset(r)[LineFeed] == multiset(s)['\n']
  {
    if |s| == 0 then []
    else
      assert s == [s[0]] + s[1..];
      Utf16Char(s[0]) + Utf16(s[1..])
  }

  function Utf16Char(c: char): (r: seq<CodeUnit>)
    ensures 1 <= |r| <= 2
    ensures multiset(r)[LineFeed] == if c == '\n' then 1 else 0
  {
    var v := c as int;
    if v < 0x1_0000 then [v as CodeUnit]
    else
      var w := v - 0x1_0000;
      [(0xD800 + w / 0x400) as CodeUnit, (0xDC00 + w % 0x400) as CodeUnit]
  }

  /** Where `code.substring(0, offset)` ends: an offset at or past the end is
      first pulled back to the length, and a negative end counts as 0. */
  function PrefixEnd(code: seq<CodeUnit>, offset: int): (n: nat)
    ensures n <= |code|
    ensures 0 <= offset <= |code| ==> n == offset
  {
    var end := if offset >= |code| then |code| else offset;
    if end < 0 then 0 else end
  }

  /** The zero-based line of a code-unit offset: the number of line feeds
      before it. */
  function CodeOffsetToLineNum(code: seq<CodeUnit>, offset: int): (line: nat)
    ensures line == multiset(code[..PrefixEnd(code, offset)])[LineFeed]
  {
    var prefix := code[..PrefixEnd(code, offset)];
    Text.CountOfIsMultiplicity(prefix, LineFeed);
    Text.CountOf(prefix, LineFeed)
  }

  /** The first code unit is on line 0, and no offset is past the last line. */
  lemma LineNumBounds(code: seq<CodeUnit>, offset: int)
    ensures CodeOffsetToLineNum(code, 0) == 0
    ensures CodeOffsetToLineNum(code, offset) <= multiset(code)[LineFeed]
  {
    assert code[..0] == [];
    Text.CountOfIsMultiplicity(code[..PrefixEnd(code, offset)], LineFeed);
    Text.CountOfIsMultiplicity(code[..|code|], LineFeed);
    Text.CountOfPrefixMonotone(code, LineFeed, PrefixEnd(code, offset), |code|);
    assert code[..|code|] == code;
  }

  /** A later offset is never on an earlier line. */
  lemma LineNumMonotone(code: seq<CodeUnit>, offset1: int, offset2: int)
    requires offset1 <= offset2
    ensures CodeOffsetToLineNum(code, offset1) <= CodeOffsetToLineNum(code, offset2)
  {
    Text.CountOfIsMultiplicity(code[..PrefixEnd(code, offset1)], LineFeed);
    Text.CountOfIsMultiplicity(code[..PrefixEnd(code, offset2)], LineFeed);
    Text.CountOfPrefixMonotone(code, LineFeed, PrefixEnd(code, offset1), PrefixEnd(code, offset2));
  }

  /** Stepping over one code unit moves down a line exactly when that unit is
      a line feed. */
  lemma LineNumStep(code: seq<CodeUnit>, offset: nat)
    requires offset < |code|
    ensures CodeOffsetToLineNum(code, offset + 1)
      == CodeOffsetToLineNum(code, offset) + (if code[offset] == LineFeed then 1 else 0)
  {
    assert code[..offset + 1] == code[..offset] + [code[offset]];
  }

  /** Offsets at or beyond the end all map to the last line, which is the
      number of line breaks in the text the code units encode. */
  lemma LineNumClamped(text: string, offset: int)
    requires offset >= |Utf16(text)|
    ensures CodeOffsetToLineNum(Utf16(text), offset) == multiset(text)['\n']
  {
    var code := Utf16(text);
    assert code[..|code|] == code;
  }

  /** In a text of Basic Multilingual Plane characters only, code-unit
      offsets are character offsets, and the line of an offset is the number
      of line breaks among the characters before it. */
  lemma {:induction false} LineNumOfBasicText(text: string, offset: nat)
    requires forall i :: 0 <= i < |text| ==> text[i] as int < 0x1_0000
    requires offset <= |text|
    ensures |Utf16(text)| == |text|
    ensures CodeOffsetToLineNum(Utf16(text), offset) == multiset(text[..offset])['\n']
  {
    BasicTextEncodesAlike(text);
    var code := Utf16(text);
    assert code[..offset] == Utf16(text[..offset]) by {
      BasicTextEncodesAlike(text[..offset]);
    }
  }

  /** Below the supplementary planes each character is its own code unit. */
  lemma {:induction false} BasicTextEncodesAlike(text: string)
    requires forall i :: 0 <= i < |text| ==> text[i] as int < 0x1_0000
    ensures |Utf16(text)| == |text|
    ensures forall i :: 0 <= i < |text| ==> Utf16(text)[i] as int == text[i] as int
  {
    if |text| > 0 {
      BasicTextEncodesAlike(text[1..]);
    }
  }

  /** A character outside the Basic Multilingual Plane takes two offsets: in
      a text that starts with one and then a line break, the line break is at
      offset 2, so offset 2 is still on line 0 (counting characters would put
      it on line 1) and offset 3 is on line 1. */
  lemma AstralCharacterTakesTwoOffsets(c: char, rest: string)
    requires c as int >= 0x1_0000
    ensures CodeOffsetToLineNum(Utf16([c, '\n'] + rest), 2) == 0
    ensures CodeOffsetToLineNum(Utf16([c, '\n'] + rest), 3) == 1
  {
    var code := Utf16([c, '\n'] + rest);
    AstralThenLineFeed(c, rest);
    LineNumBounds(code, 0);
    LineNumStep(code, 0);
    LineNumStep(code, 1);
    LineNumStep(code, 2);
  }

  lemma AstralThenLineFeed(c: char, rest: string)
    requires c as int >= 0x1_0000
    ensures var code := Utf16([c, '\n'] + rest);
      |code| >= 3 && code[0] != LineFeed && code[1] != LineFeed && code[2] == LineFeed
  {
    var text := [c, '\n'] + rest;
    assert text[1..] == ['\n'] + rest;
    assert text[1..][1..] == rest;
    assert Utf16(text) == Utf16Char(c) + Utf16(['\n'] + rest);
    assert Utf16(['\n'] + rest) == [LineFeed] + Utf16(rest);
    assert |Utf16Char(c)| == 2;
  }

  /** The position a link points to, as the web UI knows it. */
  datatype JumpTarget = JumpTarget(fileId: int, offset: int)

  /** `#page=code&file=<fileId>&offset=<offset>`: a '#' and then the token of
      the three parameters. */
  function ConvertJumpTargetToUrlFragment(target: JumpTarget): (r: string)
    ensures |r| > 0 && r[0] == '#'
    ensures r[1..] == PageController.TokenOf(FragmentParameters(target))
  {
    var file := Text.IntString(target.fileId);
    var offset := Text.IntString(target.offset);
    FragmentText(file, offset);
    "#page=code&file=" + file + "&offset=" + offset
  }

  lemma FragmentText(file: string, offset: string)
    ensures ("#page=code&file=" + file + "&offset=" + offset)[1..]
      == PageController.TokenOf([("page", "code"), ("file", file), ("offset", offset)])
  {
    var pairs := [("page", "code"), ("file", file), ("offset", offset)];
    assert pairs[1..] == [("file", file), ("offset", offset)];
    PageController.TokenOfTwo("file", file, "offset", offset);
    assert "#page=code&file="[1..] == "page" + "=" + "code" + "&" + "file" + "=";
  }

  function FragmentParameters(target: JumpTarget): seq<(string, string)>
  {
    [("page", "code"), ("file", Text.IntString(target.fileId)), ("offset", Text.IntString(target.offset))]
  }

  /** The three parameters are distinct and fit in a token. */
  lemma FragmentParametersEncodable(target: JumpTarget)
    ensures PageController.Encodable(FragmentParameters(target))
    ensures PageController.BuildMap(FragmentParameters(target))
      == Ok(map["page" := "code", "file" := Text.IntString(target.fileId),
                "offset" := Text.IntString(target.offset)])
  {
    var file := Text.IntString(target.fileId);
    var offset := Text.IntString(target.offset);
    var pairs := FragmentParameters(target);
    assert pairs[1..] == [("file", file), ("offset", offset)];
    PageController.BuildTwo("file", file, "offset", offset);
    assert "page" != "file" && "page" != "offset";
    assert map["file" := file, "offset" := offset]["page" := "code"]
      == map["page" := "code", "file" := file, "offset" := offset];
  }

  /** The fragment, read back as `key=value` parameters, names the code page
      and gives back the file id and the offset. */
  lemma FragmentReadsBack(target: JumpTarget)
    ensures PageController.BuildParameters(ConvertJumpTargetToUrlFragment(target)[1..])
      == Ok(map["page" := "code", "file" := Text.IntString(target.fileId),
                "offset" := Text.IntString(target.offset)])
    ensures Text.ParseInt(Text.IntString(target.fileId)) == target.fileId
    ensures Text.ParseInt(Text.IntString(target.offset)) == target.offset
  {
    FragmentParametersEncodable(target);
    PageController.TokenRoundTrip(FragmentParameters(target));
    Text.IntStringRoundTrip(target.fileId);
    Text.IntStringRoundTrip(target.offset);
  }
}
