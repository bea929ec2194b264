/**
 * The caller-side string handling in the upload handler: the extension
 * whitelist, the table name taken from the filename stem, and the choice of
 * reader for an accepted file.
 */
module Upload {
  import opened Text

  /** The last position of `c` in `s`, or -1 (Python's `str.rfind`). */
  function LastIndexOf(s: string, c: char): (r: int)
    ensures -1 <= r < |s|
    ensures r >= 0 ==> s[r] == c
    ensures forall i :: r < i < |s| ==> s[i] != c
  {
    if s == [] then -1
    else if s[|s| - 1] == c then |s| - 1
    else LastIndexOf(s[..|s| - 1], c)
  }

  /** `os.path.splitext` on a POSIX path: the extension starts at the last
      dot, provided that dot comes after the last `/` and the final path
      component has something other than dots before it; otherwise the
      extension is empty. */
  function SplitExt(p: string): (r: (string, string))
    ensures r.0 + r.1 == p
    ensures r.1 == [] || (r.1[0] == '.' && '.' !in r.1[1..] && '/' !in r.1)
  {
    var sepIndex := LastIndexOf(p, '/');
    var dotIndex := LastIndexOf(p, '.');
    if dotIndex > sepIndex && exists i :: sepIndex + 1 <= i < dotIndex && p[i] != '.' then
      var ext := p[dotIndex..];
      assert forall k :: 1 <= k < |ext| ==> ext[k] == p[dotIndex + k];
      (p[..dotIndex], ext)
    else
      (p, [])
  }

  /** When the extension is non-empty, in terms of the path alone: some dot
      in the final path component has a character other than a dot before it
      in that component. Otherwise (no dot, or only leading dots as in
      `.bashrc` or `..`) the extension is empty and the stem is the whole path. */
  lemma SplitExtHasExtension(p: string)
    ensures SplitExt(p).1 != []
        <==> exists i, d :: 0 <= i < d < |p| && p[i] != '.' && p[d] == '.'
               && (forall k :: i <= k < |p| ==> p[k] != '/')
  {
    var sepIndex := LastIndexOf(p, '/');
    var dotIndex := LastIndexOf(p, '.');
    if SplitExt(p).1 != [] {
      assert dotIndex > sepIndex && exists i :: sepIndex + 1 <= i < dotIndex && p[i] != '.';
      var i :| sepIndex + 1 <= i < dotIndex && p[i] != '.';
      assert p[dotIndex] == '.';
      assert forall k :: i <= k < |p| ==> p[k] != '/';
    }
    if exists i, d :: 0 <= i < d < |p| && p[i] != '.' && p[d] == '.'
         && (forall k :: i <= k < |p| ==> p[k] != '/') {
      var i, d :| 0 <= i < d < |p| && p[i] != '.' && p[d] == '.'
        && (forall k :: i <= k < |p| ==> p[k] != '/');
      assert sepIndex < i;
      assert d <= dotIndex;
      assert sepIndex + 1 <= i < dotIndex && p[i] != '.';
    }
  }

  /** The final path component of `stem` has a character other than a dot:
      such a stem may end in dots (`a.`), but is not empty, not `..` and does
      not end in `/`. */
  predicate NamedStem(stem: string) {
    exists i :: 0 <= i < |stem| && stem[i] != '.'
      && forall k :: i <= k < |stem| ==> stem[k] != '/'
  }

  /** A named stem followed by one dotted suffix splits exactly there. */
  lemma SplitExtOf(stem: string, ext: string)
    requires NamedStem(stem)
    requires ext != [] && ext[0] == '.' && '.' !in ext[1..] && '/' !in ext
    ensures SplitExt(stem + ext) == (stem, ext)
  {
    var p := stem + ext;
    var dotIndex := LastIndexOf(p, '.');
    assert p[|stem|] == '.';
    forall i | |stem| < i < |p| ensures p[i] != '.' && p[i] != '/' {
      assert p[i] == ext[i - |stem|];
      assert ext[1..][i - |stem| - 1] == ext[i - |stem|];
    }
    assert dotIndex == |stem|;
    var sepIndex := LastIndexOf(p, '/');
    var i :| 0 <= i < |stem| && stem[i] != '.' && forall k :: i <= k < |stem| ==> stem[k] != '/';
    assert forall k :: i <= k < |stem| ==> p[k] == stem[k];
    assert sepIndex < i && p[i] != '.';
    assert p[..dotIndex] == stem && p[dotIndex..] == ext;
  }

  /** The extensions the handler accepts, lower-case. */
  function AcceptedExtensions(): seq<string> {
    [".csv", ".xls", ".xlsx"]
  }

  /** `os.path.splitext(file.filename)[1].lower()`. */
  function FileExtension(filename: string): (r: string)
    ensures |r| == |SplitExt(filename).1|
    ensures r == [] || (r[0] == '.' && '.' !in r[1..])
    ensures forall i :: 0 <= i < |r| ==> !IsAsciiUpper(r[i])
  {
    LowerAscii(SplitExt(filename).1)
  }

  predicate ExtensionAccepted(filename: string) {
    FileExtension(filename) in AcceptedExtensions()
  }

  /** An accepted filename ends, up to letter case, in one of the three
      extensions, and has a non-empty stem before it. */
  lemma AcceptedEndsWithExtension(filename: string)
    requires ExtensionAccepted(filename)
    ensures var ext := SplitExt(filename).1;
      0 < |ext| < |filename| && ext == filename[|filename| - |ext|..]
      && LowerAscii(ext) in AcceptedExtensions()
  {
    var (stem, ext) := SplitExt(filename);
    assert ext != [];
  }

  /** A named stem followed by any of the three extensions, in any letter
      case, is accepted, and the extension is exactly that suffix. */
  lemma WhitelistedSuffixAccepted(stem: string, ext: string)
    requires NamedStem(stem)
    requires LowerAscii(ext) in AcceptedExtensions()
    ensures SplitExt(stem + ext) == (stem, ext)
    ensures ExtensionAccepted(stem + ext)
  {
    var low := LowerAscii(ext);
    AcceptedShape(low);
    forall k | 0 <= k < |ext| ensures (ext[k] == '.') == (low[k] == '.') && (ext[k] == '/') == (low[k] == '/') {
    }
    assert ext[0] == '.';
    forall k | 1 <= k < |ext| ensures ext[k] != '.' {
      assert low[1..][k - 1] == low[k];
    }
    SplitExtOf(stem, ext);
  }

  /** Each whitelisted extension is one dot followed by letters only. */
  lemma AcceptedShape(e: string)
    requires e in AcceptedExtensions()
    ensures e != [] && e[0] == '.' && '.' !in e[1..] && '/' !in e
  {
    assert e == ".csv" || e == ".xls" || e == ".xlsx";
  }

  /** A stem may itself end in a dot: `a..csv` splits as `a.` and `.csv`
      and is accepted. */
  lemma DottedStemAccepted()
    ensures SplitExt("a..csv") == ("a.", ".csv")
    ensures ExtensionAccepted("a..csv")
  {
    var stem, ext := "a.", ".csv";
    assert stem[0] != '.' && forall k :: 0 <= k < |stem| ==> stem[k] != '/';
    assert NamedStem(stem);
    LowerCsv();
    WhitelistedSuffixAccepted(stem, ext);
    assert stem + ext == "a..csv";
  }

  lemma LowerCsv()
    ensures LowerAscii(".csv") == ".csv" && ".csv" in AcceptedExtensions()
  {
    var low := LowerAscii(".csv");
    assert low[0] == '.' && low[1] == 'c' && low[2] == 's' && low[3] == 'v';
  }

  /** `os.path.splitext(file.filename)[0].replace(' ', '_').replace('-', '_')`:
      the stem with every space and hyphen turned into an underscore, and
      nothing else changed. */
  function TableName(filename: string): (r: string)
    ensures var stem := SplitExt(filename).0;
      |r| == |stem|
      && (forall i :: 0 <= i < |r| ==> r[i] != ' ' && r[i] != '-')
      && (forall i :: 0 <= i < |r| ==> r[i] == UnderscoreChar(stem[i]))
  {
    Underscored(SplitExt(filename).0)
  }

  /** How an accepted file is loaded: `pd.read_csv`, or `pd.read_excel` with
      the xlrd engine (legacy .xls) or the openpyxl engine. */
  datatype Reader = ReadCsv | ReadExcelXlrd | ReadExcelOpenpyxl

  predicate EndsWith(s: string, suffix: string) {
    |suffix| <= |s| && s[|s| - |suffix|..] == suffix
  }

  /** The dispatch as written: the CSV test uses the lowered extension, but
      the engine test inside `read_excel_file` looks at the saved path
      `uploads/<filename>` with its original letter case. */
  function ChooseReaderAsWritten(filename: string): Reader {
    if FileExtension(filename) == ".csv" then ReadCsv
    else if EndsWith("uploads/" + filename, ".xls") then ReadExcelXlrd
    else ReadExcelOpenpyxl
  }

  /** A legacy workbook whose name is in upper case is accepted but handed to
      the openpyxl engine, which reads only the newer format. */
  lemma UpperCaseXlsGoesToOpenpyxl()
    ensures ExtensionAccepted("DATA.XLS") && FileExtension("DATA.XLS") == ".xls"
    ensures ChooseReaderAsWritten("DATA.XLS") == ReadExcelOpenpyxl
  {
    UpperCaseXlsAccepted();
    var path := "uploads/" + "DATA.XLS";
    assert path[|path| - 4..] == ".XLS";
  }

  /** `DATA.XLS` has the extension `.XLS`, which lowers to `.xls`. */
  lemma UpperCaseXlsAccepted()
    ensures SplitExt("DATA.XLS").1 == ".XLS"
    ensures ExtensionAccepted("DATA.XLS") && FileExtension("DATA.XLS") == ".xls"
  {
    var stem, ext := "DATA", ".XLS";
    assert stem[0] != '.' && forall k :: 0 <= k < |stem| ==> stem[k] != '/';
    assert NamedStem(stem);
    LowerXls();
    WhitelistedSuffixAccepted(stem, ext);
    assert stem + ext == "DATA.XLS";
  }

  lemma LowerXls()
    ensures LowerAscii(".XLS") == ".xls" && ".xls" in AcceptedExtensions()
  {
    var low := LowerAscii(".XLS");
    assert low[0] == '.' && low[1] == 'x' && low[2] == 'l' && low[3] == 's';
  }

  /** The dispatch as evidently intended: on the lowered extension, as the
      whitelist is. */
  function ChooseReader(filename: string): (r: Reader)
    requires ExtensionAccepted(filename)
    ensures r == ReadCsv <==> FileExtension(filename) == ".csv"
    ensures r == ReadExcelXlrd <==> FileExtension(filename) == ".xls"
    ensures r == ReadExcelOpenpyxl <==> FileExtension(filename) == ".xlsx"
  {
    var ext := FileExtension(filename);
    if ext == ".csv" then ReadCsv
    else if ext == ".xls" then ReadExcelXlrd
    else ReadExcelOpenpyxl
  }

  /** The upload handler's decision before any conversion: a 400 error for an
      extension outside the whitelist, otherwise the table name and the reader. */
  datatype Plan = Rejected(status: nat) | Convert(tableName: string, reader: Reader)

  function PlanUpload(filename: string): (r: Plan)
    ensures r.Rejected? <==> !ExtensionAccepted(filename)
    ensures r.Rejected? ==> r.status == 400
    ensures r.Convert? ==> r.tableName == TableName(filename) && r.reader == ChooseReader(filename)
  {
    if !ExtensionAccepted(filename) then Rejected(400)
    else Convert(TableName(filename), ChooseReader(filename))
  }
}
