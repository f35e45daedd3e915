/** The pure parts of the Google Drive service: the MIME type an upload is
    sent with, the search queries sent to Drive, and the choice between
    replacing a file of the same name and creating a new one. The calls to
    Drive themselves are left to the caller: a search is answered by a
    listing of the files it can see. */
module Drive {
  import opened Wrappers
  import opened Text
  import opened Paths

  // ---------------------------------------------------------------------
  // MIME types
  // ---------------------------------------------------------------------

  const XlsxType: string := "application/vnd.openxmlformats-officedocument.spreadsheetml.sheet"
  const XlsType: string := "application/vnd.ms-excel"
  const CsvType: string := "text/csv"
  const PdfType: string := "application/pdf"
  const PngType: string := "image/png"
  const JpegType: string := "image/jpeg"
  const OctetStream: string := "application/octet-stream"

  /** The extensions with a type of their own, in lower case. */
  const KnownTypes: map<string, string> :=
    map[".xlsx" := XlsxType, ".xls" := XlsType, ".csv" := CsvType, ".pdf" := PdfType,
        ".png" := PngType, ".jpg" := JpegType, ".jpeg" := JpegType]

  /** The `switch` on a lower-cased extension. */
  function MimeOfExtension(ext: string): (m: string)
    ensures ext in KnownTypes ==> m == KnownTypes[ext]
    ensures m == OctetStream <==> ext !in KnownTypes
    ensures m == JpegType <==> ext == ".jpg" || ext == ".jpeg"
  {
    if ext == ".xlsx" then XlsxType
    else if ext == ".xls" then XlsType
    else if ext == ".csv" then CsvType
    else if ext == ".pdf" then PdfType
    else if ext == ".png" then PngType
    else if ext == ".jpg" || ext == ".jpeg" then JpegType
    else OctetStream
  }

  /** `GetMimeType`: the type of the path's extension, compared in lower
      case; a path without an extension is an octet stream. */
  function GetMimeType(path: string): (m: string)
    ensures GetExtension(path) == [] ==> m == OctetStream
    ensures m == OctetStream <==> ToLower(GetExtension(path)) !in KnownTypes
  {
    MimeOfExtension(ToLower(GetExtension(path)))
  }

  /** A file extension: a dot, then at least one character, none of them a
      dot or a directory separator. */
  predicate IsExtension(ext: string) {
    |ext| >= 2 && ext[0] == '.' && NoSeparator(ext) && '.' !in ext[1..]
  }

  /** A file named `name + ext` is sent with the type the table gives the
      extension in lower case, and as an octet stream when the table has
      none. */
  lemma MimeTypeOfName(name: string, ext: string)
    requires IsExtension(ext)
    ensures ToLower(ext) in KnownTypes ==> GetMimeType(name + ext) == KnownTypes[ToLower(ext)]
    ensures ToLower(ext) !in KnownTypes ==> GetMimeType(name + ext) == OctetStream
  {
    GetExtensionAppend(name, ext);
  }

  /** The upper-case mapping on ASCII letters. */
  function UpperAscii(c: char): char {
    if 'a' <= c <= 'z' then (c as int - 32) as char else c
  }

  /** Writing an extension in capitals does not change the type:
      `report.PDF` is sent as `report.pdf` is. */
  lemma MimeTypeIgnoresCase(name: string, ext: string, upper: string)
    requires IsExtension(ext)
    requires |upper| == |ext| && forall i :: 0 <= i < |ext| ==> upper[i] == UpperAscii(ext[i])
    ensures GetMimeType(name + upper) == GetMimeType(name + ext)
  {
    assert IsExtension(upper) by {
      assert forall i :: 1 <= i < |upper| ==> upper[i] == UpperAscii(ext[i]) && ext[i] in ext[1..];
      forall i | 0 <= i < |upper|
        ensures !IsSeparator(upper[i])
      {
        assert !IsSeparator(ext[i]);
      }
    }
    assert ToLower(upper) == ToLower(ext);
    GetExtensionAppend(name, ext);
    GetExtensionAppend(name, upper);
  }

  // ---------------------------------------------------------------------
  // Query strings
  // ---------------------------------------------------------------------

  /** Reads a string value of Drive's query language from just after its
      opening quote: a backslash makes the next character literal and an
      unescaped quote ends the value. Gives the value and the text after
      the closing quote, or nothing when the value is not closed. */
  function ReadLiteral(s: string): (r: Option<(string, string)>)
    ensures r.Some? ==> |r.value.1| < |s|
  {
    if s == [] then None
    else if s[0] == '\'' then Some(([], s[1..]))
    else if s[0] == '\\' then
      if |s| < 2 then None else Prepend(s[1], ReadLiteral(s[2..]))
    else Prepend(s[0], ReadLiteral(s[1..]))
  }

  /** A character read in front of the rest of a value. */
  function Prepend(c: char, r: Option<(string, string)>): Option<(string, string)> {
    match r
    case None => None
    case Some((v, rest)) => Some(([c] + v, rest))
  }

  /** Regrouping an escaped value followed by its closing quote and the
      text after it. */
  lemma Regroup(head: string, body: string, rest: string)
    ensures head + body + "'" + rest == head + (body + "'" + rest)
  {
  }

  /** An escaped character reads as itself. */
  lemma ReadEscaped(c: char, tail: string)
    ensures ReadLiteral(['\\', c] + tail) == Prepend(c, ReadLiteral(tail))
  {
    var t := ['\\', c] + tail;
    assert t[0] == '\\' && t[1] == c && t[2..] == tail;
  }

  /** A character other than a quote or a backslash reads as itself. */
  lemma ReadPlain(c: char, tail: string)
    requires c != '\'' && c != '\\'
    ensures ReadLiteral([c] + tail) == Prepend(c, ReadLiteral(tail))
  {
    var t := [c] + tail;
    assert t[0] == c && t[1..] == tail;
  }

  /** `fileName.Replace("'", "\\'")`: a backslash goes in front of every
      quote, and nothing else changes. */
  function EscapeQuotes(s: string): (r: string)
    ensures '\'' !in s ==> r == s
    ensures |r| >= |s|
  {
    if s == [] then []
    else (if s[0] == '\'' then ['\\', '\''] else [s[0]]) + EscapeQuotes(s[1..])
  }

  /** A value escaped as Drive's query language asks: a backslash in front
      of every backslash and every quote. */
  function EscapeValue(s: string): (r: string)
    ensures '\'' !in s && '\\' !in s ==> r == s
    ensures |r| >= |s|
  {
    if s == [] then []
    else (if s[0] == '\'' || s[0] == '\\' then ['\\', s[0]] else [s[0]]) + EscapeValue(s[1..])
  }

  /** Every value, escaped and closed with a quote, reads back as itself
      with the text after it untouched. */
  lemma {:induction false} EscapeValueRoundTrip(s: string, rest: string)
    ensures ReadLiteral(EscapeValue(s) + "'" + rest) == Some((s, rest))
  {
    if s == [] {
      var t := EscapeValue(s) + "'" + rest;
      assert t[0] == '\'' && t[1..] == rest;
    } else {
      EscapeValueRoundTrip(s[1..], rest);
      var tail := EscapeValue(s[1..]) + "'" + rest;
      if s[0] == '\'' || s[0] == '\\' {
        Regroup(['\\', s[0]], EscapeValue(s[1..]), rest);
        ReadEscaped(s[0], tail);
      } else {
        Regroup([s[0]], EscapeValue(s[1..]), rest);
        ReadPlain(s[0], tail);
      }
      assert [s[0]] + s[1..] == s;
    }
  }

  /** The quote-only escape reads back correctly for values without a
      backslash. */
  lemma {:induction false} EscapeQuotesRoundTrip(s: string, rest: string)
    requires '\\' !in s
    ensures ReadLiteral(EscapeQuotes(s) + "'" + rest) == Some((s, rest))
  {
    if s == [] {
      var t := EscapeQuotes(s) + "'" + rest;
      assert t[0] == '\'' && t[1..] == rest;
    } else {
      assert s[0] in s;
      assert forall c :: c in s[1..] ==> c in s;
      EscapeQuotesRoundTrip(s[1..], rest);
      var tail := EscapeQuotes(s[1..]) + "'" + rest;
      if s[0] == '\'' {
        Regroup(['\\', '\''], EscapeQuotes(s[1..]), rest);
        ReadEscaped(s[0], tail);
      } else {
        Regroup([s[0]], EscapeQuotes(s[1..]), rest);
        ReadPlain(s[0], tail);
      }
      assert [s[0]] + s[1..] == s;
    }
  }

  /** Text without quotes and backslashes never closes a value. */
  lemma {:induction false} PlainUnterminated(s: string)
    requires '\'' !in s && '\\' !in s
    ensures ReadLiteral(s) == None
  {
    if s != [] {
      assert s[0] in s;
      assert forall c :: c in s[1..] ==> c in s;
      PlainUnterminated(s[1..]);
      ReadPlain(s[0], s[1..]);
      assert [s[0]] + s[1..] == s;
    }
  }

  /** But a value ending in a backslash, escaped by quotes only, turns its
      own closing quote into a literal quote: the value runs on into the
      query text after it and, when that text has no quote, never ends. */
  lemma {:induction false} EscapeQuotesTrailingBackslash(s: string, rest: string)
    requires '\\' !in s && '\'' !in rest && '\\' !in rest
    ensures ReadLiteral(EscapeQuotes(s + "\\") + "'" + rest) == None
  {
    if s == [] {
      assert EscapeQuotes(s + "\\") + "'" + rest == ['\\', '\''] + rest;
      ReadEscaped('\'', rest);
      PlainUnterminated(rest);
    } else {
      assert s[0] in s;
      assert forall c :: c in s[1..] ==> c in s;
      EscapeQuotesTrailingBackslash(s[1..], rest);
      assert (s + "\\")[1..] == s[1..] + "\\";
      var tail := EscapeQuotes(s[1..] + "\\") + "'" + rest;
      if s[0] == '\'' {
        Regroup(['\\', '\''], EscapeQuotes(s[1..] + "\\"), rest);
        ReadEscaped(s[0], tail);
      } else {
        Regroup([s[0]], EscapeQuotes(s[1..] + "\\"), rest);
        ReadPlain(s[0], tail);
      }
    }
  }

  /** `string.IsNullOrEmpty` on an optional id. */
  predicate NullOrEmpty(s: Option<string>) {
    s.None? || s.value == []
  }

  /** The `'<id>' in parents` condition, present only for a non-empty
      folder id. */
  function ParentsClause(folderId: Option<string>): (r: string)
    ensures r == [] <==> NullOrEmpty(folderId)
  {
    if NullOrEmpty(folderId) then [] else " and '" + folderId.value + "' in parents"
  }

  const NameOpen: string := "name='"
  const FileConditions: string := " and trashed=false"
  const FolderConditions: string := " and mimeType='application/vnd.google-apps.folder' and trashed=false"

  /** The query of `FindFileByNameInFolderAsync`, as written: the name with
      its quotes escaped. */
  function FileQuery(name: string, folderId: Option<string>): (q: string)
    ensures |q| >= |NameOpen| && q[..|NameOpen|] == NameOpen
  {
    NameOpen + EscapeQuotes(name) + "'" + (FileConditions + ParentsClause(folderId))
  }

  /** The same query with the name escaped as Drive's query language asks. */
  function FileQueryEscaped(name: string, folderId: Option<string>): (q: string)
    ensures |q| >= |NameOpen| && q[..|NameOpen|] == NameOpen
  {
    NameOpen + EscapeValue(name) + "'" + (FileConditions + ParentsClause(folderId))
  }

  /** The query of `GetOrCreateFolderAsync`: the folder name goes in as it
      is, with no escaping. */
  function FolderQuery(name: string, parentId: Option<string>): (q: string)
    ensures |q| >= |NameOpen| && q[..|NameOpen|] == NameOpen
  {
    NameOpen + name + "'" + (FolderConditions + ParentsClause(parentId))
  }

  /** What follows the opening `name='` of a query. */
  lemma AfterOpen(body: string, tail: string)
    ensures (NameOpen + body + "'" + tail)[|NameOpen|..] == body + "'" + tail
  {
  }

  /** The file query asks for the file's own name, not trashed, and in the
      folder when one is given, as long as the name holds no backslash. */
  lemma FileQueryReadsName(name: string, folderId: Option<string>)
    requires '\\' !in name
    ensures ReadLiteral(FileQuery(name, folderId)[|NameOpen|..]) == Some((name, FileConditions + ParentsClause(folderId)))
  {
    var tail := FileConditions + ParentsClause(folderId);
    AfterOpen(EscapeQuotes(name), tail);
    EscapeQuotesRoundTrip(name, tail);
  }

  /** For a name ending in a backslash and no folder, the file query's name
      is never closed, so Drive is sent a malformed query. */
  lemma FileQueryTrailingBackslash(name: string, folderId: Option<string>)
    requires '\\' !in name && NullOrEmpty(folderId)
    ensures ReadLiteral(FileQuery(name + "\\", folderId)[|NameOpen|..]) == None
  {
    var q := FileQuery(name + "\\", folderId);
    assert q[|NameOpen|..] == EscapeQuotes(name + "\\") + "'" + FileConditions;
    assert '\'' !in FileConditions && '\\' !in FileConditions by {
      assert FileConditions == [' ', 'a', 'n', 'd', ' ', 't', 'r', 'a', 's', 'h', 'e', 'd', '=', 'f', 'a', 'l', 's', 'e'];
    }
    EscapeQuotesTrailingBackslash(name, FileConditions);
  }

  /** The corrected file query asks for every name as it is. */
  lemma FileQueryEscapedReadsName(name: string, folderId: Option<string>)
    ensures ReadLiteral(FileQueryEscaped(name, folderId)[|NameOpen|..]) ==
            Some((name, FileConditions + ParentsClause(folderId)))
  {
    var tail := FileConditions + ParentsClause(folderId);
    AfterOpen(EscapeValue(name), tail);
    EscapeValueRoundTrip(name, tail);
  }

  /** The folder query asks for the folder's own name when the name holds
      neither a quote nor a backslash, as the names the application passes
      do. */
  lemma FolderQueryReadsName(name: string, parentId: Option<string>)
    requires '\'' !in name && '\\' !in name
    ensures ReadLiteral(FolderQuery(name, parentId)[|NameOpen|..]) == Some((name, FolderConditions + ParentsClause(parentId)))
  {
    var tail := FolderConditions + ParentsClause(parentId);
    AfterOpen(name, tail);
    assert EscapeQuotes(name) == name;
    EscapeQuotesRoundTrip(name, tail);
  }

  // ---------------------------------------------------------------------
  // Upload or replace
  // ---------------------------------------------------------------------

  /** A file as a Drive listing shows it. */
  datatype DriveFile = DriveFile(id: string, name: string, parents: seq<string>)

  /** The files the file query selects: of that name and, when a folder id
      is given, inside that folder. */
  predicate Matches(f: DriveFile, name: string, folderId: Option<string>) {
    f.name == name && (NullOrEmpty(folderId) || folderId.value in f.parents)
  }

  /** `FindFileByNameInFolderAsync`: the first file of the (untrashed)
      listing that the query selects. */
  function FindFile(files: seq<DriveFile>, name: string, folderId: Option<string>): (r: Option<DriveFile>)
    ensures r.None? <==> forall i :: 0 <= i < |files| ==> !Matches(files[i], name, folderId)
    ensures r.Some? ==> r.value in files && Matches(r.value, name, folderId)
  {
    if files == [] then None
    else if Matches(files[0], name, folderId) then Some(files[0])
    else
      var r := FindFile(files[1..], name, folderId);
      assert forall i :: 1 <= i < |files| ==> files[i] == files[1..][i - 1];
      r
  }

  /** What `UploadOrReplaceFileAsync` sends: new content for an existing
      file, or a new file. */
  datatype Upload = Update(fileId: string, mimeType: string) | Create(name: string, mimeType: string, parents: seq<string>)

  /** The name the upload is stored under: the given target name, or else
      the local file's own name. */
  function TargetName(localPath: string, targetName: Option<string>): string {
    targetName.GetOr(GetFileName(localPath))
  }

  /** `UploadOrReplaceFileAsync`, given the listing Drive answers the
      search with. */
  function PlanUpload(localPath: string, folderId: Option<string>, targetName: Option<string>,
                      files: seq<DriveFile>): (u: Upload)
    ensures u.mimeType == GetMimeType(localPath)
    ensures u.Update? <==> exists i :: 0 <= i < |files| && Matches(files[i], TargetName(localPath, targetName), folderId)
    ensures u.Update? ==> exists f :: f in files && f.id == u.fileId && Matches(f, TargetName(localPath, targetName), folderId)
    ensures u.Create? ==> u.name == TargetName(localPath, targetName)
    ensures u.Create? ==> u.parents == (if NullOrEmpty(folderId) then [] else [folderId.value])
  {
    var name := TargetName(localPath, targetName);
    match FindFile(files, name, folderId)
    case Some(f) => Update(f.id, GetMimeType(localPath))
    case None =>
      Create(name, GetMimeType(localPath), if NullOrEmpty(folderId) then [] else [folderId.value])
  }

  /** The listing after an upload: an update rewrites content and leaves
      the listing as it was; a create adds a file under the id Drive gives
      it. */
  function ApplyUpload(files: seq<DriveFile>, u: Upload, newId: string): (r: seq<DriveFile>)
    ensures u.Update? ==> r == files
    ensures u.Create? ==> |r| == |files| + 1 && r[..|files|] == files
  {
    match u
    case Update(_, _) => files
    case Create(name, _, parents) => files + [DriveFile(newId, name, parents)]
  }

  /** The search on a listing with one more file behind it finds what it
      found before, or the new file when it found nothing before. */
  lemma {:induction false} FindFileAppend(files: seq<DriveFile>, f: DriveFile, name: string, folderId: Option<string>)
    ensures FindFile(files, name, folderId).Some? ==> FindFile(files + [f], name, folderId) == FindFile(files, name, folderId)
    ensures FindFile(files, name, folderId).None? && Matches(f, name, folderId) ==>
              FindFile(files + [f], name, folderId) == Some(f)
  {
    if files != [] {
      assert (files + [f])[1..] == files[1..] + [f];
      FindFileAppend(files[1..], f, name, folderId);
    }
  }

  /** After an upload the file of the target name is found in the folder:
      the replaced file when there was one, else the new one; the listing
      grows only when there was none. */
  lemma UploadThenFind(localPath: string, folderId: Option<string>, targetName: Option<string>,
                       files: seq<DriveFile>, newId: string)
    ensures var name := TargetName(localPath, targetName);
      var after := ApplyUpload(files, PlanUpload(localPath, folderId, targetName, files), newId);
      && FindFile(after, name, folderId).Some?
      && (FindFile(files, name, folderId).Some? ==>
            after == files && FindFile(after, name, folderId) == FindFile(files, name, folderId))
      && (FindFile(files, name, folderId).None? ==>
            |after| == |files| + 1 && FindFile(after, name, folderId).value.id == newId)
  {
    var name := TargetName(localPath, targetName);
    var u := PlanUpload(localPath, folderId, targetName, files);
    if u.Create? {
      FindFileAppend(files, DriveFile(newId, u.name, u.parents), name, folderId);
    }
  }

  /** Uploading under the same name into the same folder again replaces
      the file the first upload left: the second upload updates it and
      the listing keeps a single file of that name. */
  lemma UploadTwiceNoDuplicate(localPath: string, otherPath: string, folderId: Option<string>,
                               targetName: Option<string>, files: seq<DriveFile>, newId: string)
    requires TargetName(otherPath, targetName) == TargetName(localPath, targetName)
    ensures var after := ApplyUpload(files, PlanUpload(localPath, folderId, targetName, files), newId);
      var second := PlanUpload(otherPath, folderId, targetName, after);
      && second.Update?
      && second.fileId == FindFile(after, TargetName(localPath, targetName), folderId).value.id
      && ApplyUpload(after, second, newId) == after
  {
    UploadThenFind(localPath, folderId, targetName, files, newId);
  }
}
