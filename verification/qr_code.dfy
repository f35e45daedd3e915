/** The client QR code service: the text a client's QR code carries, the
    extraction of the public lookup code from that text, the random public
    code itself, and the per-client image path. */
module QRCode {
  import opened Wrappers
  import opened Text
  import opened Paths

  /** The first field of the QR text. */
  const CodeTag: string := "CLIENTE_CODE"

  /** The first field of the older id-carrying format. */
  const IdTag: string := "CLIENTE"

  /** What the QR text starts with. */
  const CodePrefix: string := "CLIENTE_CODE|"

  predicate HasPrefix(s: string, p: string) {
    |p| <= |s| && s[..|p|] == p
  }

  // ---------------------------------------------------------------------
  // QR text
  // ---------------------------------------------------------------------

  /** The client's name with every `|` turned into `-`; no name is empty. */
  function SafeName(name: Option<string>): (r: string)
    ensures '|' !in r
    ensures name.None? ==> r == []
    ensures name.Some? ==>
      && |r| == |name.value|
      && forall i :: 0 <= i < |r| ==> r[i] == (if name.value[i] == '|' then '-' else name.value[i])
  {
    ReplaceChar(name.GetOr(""), '|', '-')
  }

  /** `GetQRContent`: the tag, the public code and the safe name separated
      by `|`, then the sale count and the sale total on lines of their own.
      `totalText` is the total as the current culture formats a decimal.
      With no `|` in the code or the total, the text has exactly three `|`
      fields: the tag, the code and the details. */
  function GetQRContent(code: string, name: Option<string>, count: int, totalText: string): (s: string)
    ensures '|' !in code && '|' !in totalText ==>
      Split(s, '|') == [CodeTag, code, Details(name, count, totalText)]
  {
    var d := Details(name, count, totalText);
    BuiltFields(code, d);
    CodePrefix + code + "|" + d
  }

  /** The tag, a bar-free code and a bar-free tail, joined by bars, split
      back into those three fields. */
  lemma BuiltFields(code: string, d: string)
    ensures '|' !in code && '|' !in d ==> Split(CodePrefix + code + ['|'] + d, '|') == [CodeTag, code, d]
  {
    ThreeFields(CodeTag, code, d, '|');
    assert CodePrefix == CodeTag + ['|'];
  }

  /** What follows the code: the safe name, then the count and the total
      on lines of their own. The count never holds a `|` or a line break,
      so with none in the total (nor a line break in the name) the
      details split back into exactly those three lines. */
  function Details(name: Option<string>, count: int, totalText: string): (d: string)
    ensures '|' !in totalText ==> '|' !in d
    ensures '\n' !in totalText && (name.Some? ==> '\n' !in name.value) ==>
      Split(d, '\n') == [SafeName(name), IntToString(count), totalText]
  {
    var n := SafeName(name);
    var c := IntToString(count);
    NoSeparatorInCount(count);
    ThreeFields(n, c, totalText, '\n');
    n + "\n" + c + "\n" + totalText
  }

  // ---------------------------------------------------------------------
  // Reading QR text back
  // ---------------------------------------------------------------------

  /** `ExtractPublicCodeFromQRContent`: the second `|` field when the first
      is exactly the tag, else nothing. */
  function ExtractPublicCode(s: string): (r: Option<string>)
    ensures r.Some? <==> HasPrefix(s, CodePrefix)
    ensures r.Some? ==>
      && '|' !in r.value
      && HasPrefix(s, CodePrefix + r.value)
      && (|s| == |CodePrefix + r.value| || s[|CodePrefix + r.value|] == '|')
  {
    var parts := Split(s, '|');
    PrefixSplit(s);
    if |parts| >= 2 && parts[0] == CodeTag then
      CodeField(s, parts[1]);
      Some(parts[1])
    else None
  }

  /** The second field of text starting with the tag follows the tag and
      runs to the next `|` or the end. */
  lemma CodeField(s: string, code: string)
    requires HasPrefix(s, CodePrefix) && |Split(s, '|')| >= 2 && code == Split(s, '|')[1]
    ensures '|' !in code
    ensures HasPrefix(s, CodePrefix + code)
    ensures |s| == |CodePrefix + code| || s[|CodePrefix + code|] == '|'
  {
    var parts := Split(s, '|');
    PrefixSplit(s);
    FirstFieldOfRest(s[|CodePrefix|..], parts[1..]);
  }

  /** Text that starts with the tag and `|` splits into the tag and the
      fields of the rest. */
  lemma PrefixSplit(s: string)
    ensures HasPrefix(s, CodePrefix) ==> Split(s, '|') == [CodeTag] + Split(s[|CodePrefix|..], '|')
    ensures |Split(s, '|')| >= 2 && Split(s, '|')[0] == CodeTag ==> HasPrefix(s, CodePrefix)
  {
    if HasPrefix(s, CodePrefix) {
      assert s == CodeTag + ['|'] + s[|CodePrefix|..];
      SplitConcat(CodeTag, '|', s[|CodePrefix|..]);
    }
    SplitFirstField(s, '|');
    if |Split(s, '|')| >= 2 && Split(s, '|')[0] == CodeTag {
      assert s == CodeTag + ['|'] + Join(Split(s, '|')[1..], '|');
    }
  }

  /** The first field of a text is its prefix up to the first `|`. */
  lemma FirstFieldOfRest(t: string, parts: seq<string>)
    requires |parts| >= 1 && parts == Split(t, '|')
    ensures HasPrefix(t, parts[0]) && (|t| == |parts[0]| || t[|parts[0]|] == '|')
  {
    assert Join(parts, '|') == t;
  }

  /** The round trip: the public code comes back out of the text built
      around it, whatever the name, count and total. */
  lemma {:induction false} ExtractGetQRContent(code: string, name: Option<string>, count: int, totalText: string)
    requires '|' !in code
    ensures ExtractPublicCode(GetQRContent(code, name, count, totalText)) == Some(code)
  {
    ExtractBuilt(code, Details(name, count, totalText));
  }

  /** The code comes back out of any text made of the tag, the code and a
      tail, whatever the tail holds. */
  lemma ExtractBuilt(code: string, d: string)
    requires '|' !in code
    ensures ExtractPublicCode(CodePrefix + code + ['|'] + d) == Some(code)
  {
    var s := CodePrefix + code + ['|'] + d;
    assert s == CodePrefix + (code + ['|'] + d);
    assert s[|CodePrefix|..] == code + ['|'] + d;
    SplitConcat(code, '|', d);
    PrefixSplit(s);
  }

  /** A count's decimal text holds only digits and a sign. */
  lemma NoSeparatorInCount(count: int)
    ensures '|' !in IntToString(count) && '\n' !in IntToString(count)
  {
    var c := IntToString(count);
    forall i | 0 <= i < |c| ensures c[i] != '|' && c[i] != '\n' {
      assert i == 0 || IsDigit(c[i]);
    }
  }

  /** Three separator-free fields joined by the separator split back into
      themselves. */
  lemma ThreeFields(a: string, b: string, c: string, sep: char)
    ensures sep !in a && sep !in b && sep !in c ==> Split(a + [sep] + b + [sep] + c, sep) == [a, b, c]
  {
    if sep !in a && sep !in b && sep !in c {
      assert a + [sep] + b + [sep] + c == a + [sep] + (b + [sep] + c);
      SplitConcat(a, sep, b + [sep] + c);
      SplitConcat(b, sep, c);
    }
  }

  /** `ExtractClientIdFromQRContent`: the second `|` field as a 32-bit
      integer when the first is exactly `CLIENTE`, else nothing. */
  function ExtractClientId(s: string): (r: Option<int>)
    ensures r.Some? ==> Split(s, '|')[0] == IdTag && |Split(s, '|')| >= 2
    ensures r.Some? ==> TryParseInt32(Split(s, '|')[1]) == r
  {
    var parts := Split(s, '|');
    if |parts| >= 2 && parts[0] == IdTag then TryParseInt32(parts[1]) else None
  }

  /** QR text of the current format never yields a client id. */
  lemma {:induction false} NoClientIdInQRContent(code: string, name: Option<string>, count: int, totalText: string)
    ensures ExtractClientId(GetQRContent(code, name, count, totalText)) == None
  {
    var s := GetQRContent(code, name, count, totalText);
    PrefixSplit(s);
    assert Split(s, '|')[0] == CodeTag;
    assert CodeTag != IdTag by { assert |CodeTag| != |IdTag|; }
  }

  /** Text in the older format yields the id it was written with. */
  lemma {:induction false} ExtractClientIdLegacy(id: int, rest: string)
    requires Int32Min <= id <= Int32Max
    ensures ExtractClientId(IdTag + "|" + IntToString(id) + "|" + rest) == Some(id)
  {
    var digits := IntToString(id);
    assert '|' !in IdTag;
    assert '|' !in digits by {
      forall i | 0 <= i < |digits| ensures digits[i] != '|' {
        if i > 0 { assert IsDigit(digits[i]); }
      }
    }
    assert IdTag + "|" + digits + "|" + rest == IdTag + ['|'] + (digits + ['|'] + rest);
    SplitConcat(IdTag, '|', digits + ['|'] + rest);
    SplitConcat(digits, '|', rest);
    ParseIntToString(id);
  }

  // ---------------------------------------------------------------------
  // Public codes
  // ---------------------------------------------------------------------

  type Nibble = x: int | 0 <= x < 16

  /** A GUID as its 32 hexadecimal digits, most significant first. */
  type Guid = s: seq<Nibble> | |s| == 32 witness seq(32, _ => 0)

  function HexLower(n: Nibble): char {
    if n < 10 then ('0' as int + n) as char else ('a' as int + n - 10) as char
  }

  function HexUpper(n: Nibble): (c: char)
    ensures c == UpperInvariant(HexLower(n))
  {
    if n < 10 then ('0' as int + n) as char else ('A' as int + n - 10) as char
  }

  /** `Guid.ToString("N")`: 32 lower-case hexadecimal digits. */
  function GuidToStringN(g: Guid): (r: string)
    ensures |r| == 32
    ensures forall i :: 0 <= i < 32 ==> r[i] == HexLower(g[i])
  {
    seq(32, i requires 0 <= i < 32 => HexLower(g[i]))
  }

  /** `ToUpperInvariant`. */
  function UpperString(s: string): (r: string)
    ensures |r| == |s|
    ensures forall i :: 0 <= i < |s| ==> r[i] == UpperInvariant(s[i])
  {
    seq(|s|, i requires 0 <= i < |s| => UpperInvariant(s[i]))
  }

  predicate IsHexUpper(c: char) {
    ('0' <= c <= '9') || ('A' <= c <= 'F')
  }

  /** `GeneratePublicCode`: `C-` and the first ten digits of the upper-cased
      GUID. */
  function GeneratePublicCode(g: Guid): (code: string)
    ensures |code| == 12 && code[..2] == "C-"
    ensures forall i :: 2 <= i < 12 ==> IsHexUpper(code[i])
    ensures '|' !in code && !IsBlank(code)
  {
    var digits := HexPrefix(g);
    var code := "C-" + digits;
    assert forall i :: 2 <= i < 12 ==> code[i] == digits[i - 2];
    assert code[0] == 'C';
    assert '|' !in code by {
      forall i | 0 <= i < 12 ensures code[i] != '|' {
        if i >= 2 { assert IsHexUpper(digits[i - 2]); }
      }
    }
    code
  }

  /** The first ten digits of the upper-cased GUID. */
  function HexPrefix(g: Guid): (h: string)
    ensures |h| == 10
    ensures forall i :: 0 <= i < 10 ==> h[i] == HexUpper(g[i]) && IsHexUpper(h[i])
  {
    UpperString(GuidToStringN(g))[..10]
  }

  /** Two GUIDs give the same public code exactly when their first ten
      digits agree. */
  lemma PublicCodeDeterminedByPrefix(g1: Guid, g2: Guid)
    ensures GeneratePublicCode(g1) == GeneratePublicCode(g2) <==> g1[..10] == g2[..10]
  {
    var c1 := GeneratePublicCode(g1);
    var c2 := GeneratePublicCode(g2);
    if c1 == c2 {
      forall i | 0 <= i < 10 ensures g1[i] == g2[i] {
        assert c1[i + 2] == c2[i + 2];
        assert c1[i + 2] == HexUpper(g1[i]);
        assert c2[i + 2] == HexUpper(g2[i]);
      }
    }
    if g1[..10] == g2[..10] {
      assert forall i :: 0 <= i < 10 ==> g1[i] == g2[i] by {
        forall i | 0 <= i < 10 ensures g1[i] == g2[i] {
          assert g1[..10][i] == g2[..10][i];
        }
      }
      assert forall i :: 0 <= i < 12 ==> c1[i] == c2[i];
    }
  }

  // ---------------------------------------------------------------------
  // Images
  // ---------------------------------------------------------------------

  /** The image file's name for a client. */
  function ImageFileName(clienteId: int): string {
    "Cliente_" + IntToString(clienteId) + "_QR.png"
  }

  lemma ImageFileNameShape(clienteId: int)
    ensures var name := ImageFileName(clienteId);
      && name != [] && NoSeparator(name) && !HasDrive(name)
      && |name| >= 4 && name[|name| - 4..] == ".png"
  {
    var d := IntToString(clienteId);
    var name := ImageFileName(clienteId);
    forall i | 0 <= i < |d| ensures !IsSeparator(d[i]) {
      if i > 0 { assert IsDigit(d[i]); }
    }
    assert name == "Cliente_" + d + "_QR.png";
    assert forall i :: 8 <= i < 8 + |d| ==> name[i] == d[i - 8];
  }

  /** `.png` is an extension as `Path.GetExtension` returns one. */
  lemma PngIsExtension()
    ensures IsExtensionText(".png")
  {
  }

  /** A path ending in a `.png` file name has the extension `.png`. */
  lemma CombinedPng(folder: string, name: string)
    requires name != [] && NoSeparator(name) && !HasDrive(name)
    requires |name| >= 4 && name[|name| - 4..] == ".png"
    ensures GetExtension(Combine(folder, name)) == ".png"
  {
    var p := Combine(folder, name);
    var ext := ".png";
    CombineEndsWith(folder, name);
    SuffixOfSuffix(p, name, |ext|);
    PngIsExtension();
    GetExtensionSuffix(p, ext);
  }

  /** `GetQRImagePath`: the client's image file in the QR folder; the same
      name generation uses. */
  function GetQRImagePath(folder: string, clienteId: int): (p: string)
    ensures GetFileName(p) == ImageFileName(clienteId)
    ensures GetExtension(p) == ".png"
    ensures folder == [] ==> p == ImageFileName(clienteId)
    ensures folder != [] ==> |p| > |folder| && p[..|folder|] == folder
  {
    var name := ImageFileName(clienteId);
    ImageFileNameShape(clienteId);
    GetFileNameCombine(folder, name);
    CombinedPng(folder, name);
    Combine(folder, name)
  }

  /** Different clients never share an image path. */
  lemma {:induction false} ImagePathInjective(folder: string, a: int, b: int)
    requires GetQRImagePath(folder, a) == GetQRImagePath(folder, b)
    ensures a == b
  {
    var na := ImageFileName(a);
    var nb := ImageFileName(b);
    assert na == nb;
    var da := IntToString(a);
    var db := IntToString(b);
    assert |da| == |db|;
    assert da == na[8..8 + |da|];
    assert db == nb[8..8 + |db|];
    IntToStringInjective(a, b);
  }

  /** Different clients' image paths differ. */
  lemma ImagePathsDiffer(folder: string, a: int, b: int)
    requires a != b
    ensures GetQRImagePath(folder, a) != GetQRImagePath(folder, b)
  {
    if GetQRImagePath(folder, a) == GetQRImagePath(folder, b) {
      ImagePathInjective(folder, a, b);
    }
  }

  /** What generating a client's QR code yields. */
  datatype QrArtifacts = QrArtifacts(imagePath: string, content: string, publicCode: string)

  /** `GenerateQRCodeForClient`: reuses a non-blank existing code, else
      draws a new one from `g`; builds the text with no sales and a zero
      total and writes the image to the client's path. `imageSaved` says
      whether the image write succeeded; when it fails the call throws. */
  function GenerateForClient(folder: string, clienteId: int, name: string, existing: Option<string>,
                             g: Guid, imageSaved: bool): (r: Option<QrArtifacts>)
    ensures r.Some? <==> imageSaved
    ensures r.Some? ==>
      && (!IsNullOrWhiteSpace(existing) ==> r.value.publicCode == existing.value)
      && (IsNullOrWhiteSpace(existing) ==> r.value.publicCode == GeneratePublicCode(g))
      && !IsBlank(r.value.publicCode)
      && r.value.imagePath == GetQRImagePath(folder, clienteId)
      && ('|' !in r.value.publicCode ==> ExtractPublicCode(r.value.content) == Some(r.value.publicCode))
      && r.value.content == GetQRContent(r.value.publicCode, Some(name), 0, "0")
  {
    if !imageSaved then None
    else
      var code := if IsNullOrWhiteSpace(existing) then GeneratePublicCode(g) else existing.value;
      var content := GetQRContent(code, Some(name), 0, "0");
      assert '|' !in code ==> ExtractPublicCode(content) == Some(code) by {
        if '|' !in code {
          ExtractGetQRContent(code, Some(name), 0, "0");
        }
      }
      Some(QrArtifacts(GetQRImagePath(folder, clienteId), content, code))
  }
}
