/** The certificate hash-chain builder of scripts/chain_certificates.py.

    Each input row is normalised, linked to the hash of the row before it (the first row
    to its own PreviousHash or to the all-zero genesis hash) and hashed with SHA-256 over
    its pipe-joined fields; a hash seen before in the same pass aborts the build. */
module Chain {
  import opened Wrappers
  import opened Text
  import opened Dates

  /** `GENESIS_HASH`: 64 `'0'` characters. */
  const GENESIS_HASH: string := Zeros(64)

  /** `REQUIRED_COLUMNS`, in order. */
  const REQUIRED_COLUMNS: seq<string> :=
    ["CertID", "RecipientName", "CourseTitle", "DateIssued", "PreviousHash", "CurrentHash"]

  predicate IsLowerHexDigit(c: char) {
    '0' <= c <= '9' || 'a' <= c <= 'f'
  }

  /** What `hashlib.sha256(...).hexdigest()` returns: 64 lowercase hex digits. */
  predicate IsLowerHex64(s: string) {
    |s| == 64 && forall k :: 0 <= k < |s| ==> IsLowerHexDigit(s[k])
  }

  /** A SHA-256 digest in lowercase hex. */
  type Digest = s: string | IsLowerHex64(s) witness GENESIS_HASH

  /** The environment of a build: the SHA-256 function (`_sha256_hex`, of which nothing is
      assumed but the shape of its result), the QR service URL (`_build_qr_url`), whether
      downloading a QR image to a path succeeds (`_download_qr`), and `os.path.abspath`. */
  datatype Env = Env(
    hash: string -> Digest,
    qrUrl: (string, int) -> string,
    downloadOk: (string, string) -> bool,
    absPath: string -> string)

  /** The options of `chain_certificates`; an empty string stands for an absent option
      (Python treats `None` and `""` alike in `if base_url:` and `if qr_dir:`). */
  datatype Config = Config(baseUrl: string, qrDir: string, qrSize: int, addQrUrl: bool, qrAbsolute: bool)

  /** An input CSV row: column name to cell. */
  type Row = map<string, string>

  /** One output row. The three enrichment fields are `None` when the row has no such key. */
  datatype CertRecord = CertRecord(
    certId: string,
    name: string,
    title: string,
    dateIssued: string,
    previousHash: string,
    currentHash: string,
    verificationUrl: Option<string>,
    qrCodeUrl: Option<string>,
    qrCodePath: Option<string>)

  /** The `ValueError`s `chain_certificates` raises; row numbers count the header as row 1. */
  datatype BuildError =
    | MissingColumns(columns: seq<string>)
    | NoDataRows
    | InvalidDate(value: string)
    | InvalidPreviousHash(row: nat, value: string)
    | DuplicateHash(row: nat, hash: string)

  /** What the build writes: the CSV (`columns` and `records`), the JSON export
      (`records`) and the hash index. */
  datatype ChainOutput = ChainOutput(records: seq<CertRecord>, columns: seq<string>, index: map<string, nat>)

  /** `row.get(key)` read through `_trim`'s `value or ""`: a missing cell reads as empty. */
  function Get(row: Row, key: string): string {
    if key in row then row[key] else ""
  }

  // ---------------------------------------------------------------------------
  // The hash-format check

  predicate IsHexDigit(c: char) {
    IsDigit(c) || 'a' <= c <= 'f' || 'A' <= c <= 'F'
  }

  /** `s[i..]` is hex digits with single underscores between them: `d ("_"? d)*`. */
  predicate HexDigitsFrom(s: string, i: nat)
    requires i <= |s|
    decreases |s| - i
  {
    i < |s| && IsHexDigit(s[i])
    && (i + 1 == |s| || HexDigitsFrom(s, i + 1) || (s[i + 1] == '_' && HexDigitsFrom(s, i + 2)))
  }

  /** What `int(s, 16)` accepts of an unpadded ASCII string: an optional sign, then either
      hex digits or a `0x`/`0X` prefix followed by hex digits that may start with one
      underscore. */
  predicate IntBase16Accepts(s: string) {
    var i := if |s| > 0 && (s[0] == '+' || s[0] == '-') then 1 else 0;
    || HexDigitsFrom(s, i)
    || (i + 2 <= |s| && s[i] == '0' && (s[i + 1] == 'x' || s[i + 1] == 'X')
        && (HexDigitsFrom(s, i + 2) || (i + 3 <= |s| && s[i + 2] == '_' && HexDigitsFrom(s, i + 3))))
  }

  /** A character `int(s, 16)` can accept: a hex digit, a sign, the `x` of the prefix or
      an underscore. */
  predicate IsHexSyntaxChar(c: char) {
    IsHexDigit(c) || c == '+' || c == '-' || c == 'x' || c == 'X' || c == '_'
  }

  /** `_is_hex64`: the stripped string has 64 characters and `int(s, 16)` accepts it.
      Every stripped string of 64 hex digits, in either case, passes; what passes is
      made of hex digits, signs, `x` and underscores only. */
  predicate IsHex64(s: string)
    ensures (|Trim(s)| == 64 && forall k :: 0 <= k < |Trim(s)| ==> IsHexDigit(Trim(s)[k])) ==> IsHex64(s)
    ensures IsHex64(s) ==> |Trim(s)| == 64 && forall k :: 0 <= k < |Trim(s)| ==> IsHexSyntaxChar(Trim(s)[k])
  {
    var t := Trim(s);
    HexDigitsAccepted(t);
    AcceptedChars(t);
    |t| == 64 && IntBase16Accepts(t)
  }

  lemma {:induction false} HexDigitsAll(s: string, i: nat)
    requires i < |s| && forall k :: i <= k < |s| ==> IsHexDigit(s[k])
    ensures HexDigitsFrom(s, i)
    decreases |s| - i
  {
    if i + 1 < |s| {
      HexDigitsAll(s, i + 1);
    }
  }

  lemma {:induction false} HexDigitsAccepted(t: string)
    ensures (|t| > 0 && forall k :: 0 <= k < |t| ==> IsHexDigit(t[k])) ==> IntBase16Accepts(t)
  {
    if |t| > 0 && forall k :: 0 <= k < |t| ==> IsHexDigit(t[k]) {
      HexDigitsAll(t, 0);
    }
  }

  lemma {:induction false} HexDigitsChars(s: string, i: nat)
    requires i <= |s| && HexDigitsFrom(s, i)
    ensures forall k :: i <= k < |s| ==> IsHexSyntaxChar(s[k])
    decreases |s| - i
  {
    if i + 1 < |s| {
      if HexDigitsFrom(s, i + 1) {
        HexDigitsChars(s, i + 1);
      } else {
        HexDigitsChars(s, i + 2);
      }
    }
  }

  lemma {:induction false} AcceptedChars(t: string)
    ensures IntBase16Accepts(t) ==> forall k :: 0 <= k < |t| ==> IsHexSyntaxChar(t[k])
  {
    if IntBase16Accepts(t) {
      var i := if |t| > 0 && (t[0] == '+' || t[0] == '-') then 1 else 0;
      if HexDigitsFrom(t, i) {
        HexDigitsChars(t, i);
      } else if HexDigitsFrom(t, i + 2) {
        HexDigitsChars(t, i + 2);
      } else {
        HexDigitsChars(t, i + 3);
      }
    }
  }

  /** Every digest passes the format check, so linked rows never fail it. */
  lemma {:induction false} DigestPassesCheck(h: Digest)
    ensures IsHex64(h)
  {
    DigestNoSpace(h);
    TrimNoSpace(h);
  }

  lemma {:induction false} DigestNoSpace(h: Digest)
    ensures forall k :: 0 <= k < |h| ==> !IsSpace(h[k])
  {
    forall k | 0 <= k < |h| ensures !IsSpace(h[k]) {
      HexNotSpace(h[k]);
    }
  }

  lemma {:induction false} HexNotSpace(c: char)
    requires IsLowerHexDigit(c)
    ensures !IsSpace(c)
  {
  }

  lemma {:induction false} HexLowerFixed(c: char)
    requires IsLowerHexDigit(c)
    ensures LowerChar(c) == c
  {
  }

  /** A digest is unchanged by `_trim` and by `.lower()`. */
  lemma {:induction false} DigestStable(h: Digest)
    ensures Trim(h) == h && Lower(h) == h && h != ""
  {
    DigestTrimmed(h);
    DigestLowered(h);
  }

  lemma {:induction false} DigestTrimmed(h: Digest)
    ensures Trim(h) == h
  {
    DigestNoSpace(h);
    TrimNoSpace(h);
  }

  lemma {:induction false} DigestLowered(h: Digest)
    ensures Lower(h) == h
  {
    forall k | 0 <= k < |h| ensures Lower(h)[k] == h[k] {
      HexLowerFixed(h[k]);
    }
  }

  /** The check is weaker than "64 hex digits": a `0x` prefix passes it. */
  lemma {:induction false} PrefixedHashPasses()
    ensures IsHex64("0x" + Zeros(62)) && !IsLowerHex64("0x" + Zeros(62))
  {
    var s := "0x" + Zeros(62);
    assert s[1] == 'x';
    forall k | 0 <= k < |s| ensures !IsSpace(s[k]) {
      if k >= 2 { assert s[k] == Zeros(62)[k - 2]; }
    }
    TrimNoSpace(s);
    HexDigitsAll(s, 2);
  }

  // ---------------------------------------------------------------------------
  // The fields of one link

  /** `_concat_fields`: the five fields joined by `|`. */
  function ConcatFields(certId: string, name: string, title: string, date: string, prev: string): string {
    certId + "|" + name + "|" + title + "|" + date + "|" + prev
  }

  /** The cells of one row as lines 83-88 read them: CertID, RecipientName and CourseTitle
      stripped, DateIssued normalised (or the stripped value that fails to parse) and
      PreviousHash stripped. */
  datatype Fields = Fields(certId: string, name: string, title: string,
                           date: Result<string, string>, previousHash: string)

  function RowFields(row: Row): Fields {
    Fields(Trim(Get(row, "CertID")), Trim(Get(row, "RecipientName")), Trim(Get(row, "CourseTitle")),
           NormalizeDate(Get(row, "DateIssued")), Trim(Get(row, "PreviousHash")))
  }

  /** The cells of every row, in order. */
  function RowsFields(rows: seq<Row>): (fs: seq<Fields>)
    ensures |fs| == |rows|
  {
    if |rows| == 0 then [] else RowsFields(rows[..|rows| - 1]) + [RowFields(rows[|rows| - 1])]
  }

  lemma {:induction false} RowsFieldsAt(rows: seq<Row>, i: nat)
    requires i < |rows|
    ensures RowsFields(rows)[i] == RowFields(rows[i])
  {
    if i < |rows| - 1 {
      RowsFieldsAt(rows[..|rows| - 1], i);
    }
  }

  /** The previous hash of the first row: its own stripped PreviousHash, or the genesis
      hash when that is blank, lower-cased. */
  function FirstPrevious(f: Fields): string {
    Lower(if |f.previousHash| > 0 then f.previousHash else GENESIS_HASH)
  }

  /** The previous hash of a later row: the stripped CurrentHash of the row before it,
      or the genesis hash when that is blank, lower-cased. */
  function LinkedPrevious(prior: seq<CertRecord>): string
    requires |prior| > 0
  {
    var t := Trim(prior[|prior| - 1].currentHash);
    Lower(if |t| > 0 then t else GENESIS_HASH)
  }

  function PreviousFor(f: Fields, prior: seq<CertRecord>): string {
    if |prior| == 0 then FirstPrevious(f) else LinkedPrevious(prior)
  }

  /** The set of CurrentHash values of some records (`seen_hashes`). */
  function HashSet(rs: seq<CertRecord>): set<string> {
    set r | r in rs :: r.currentHash
  }


  // ---------------------------------------------------------------------------
  // Enrichment: verification URL and QR file name

  /** `s.rstrip('/')`. */
  function RStripSlash(s: string): (r: string)
    ensures |r| <= |s| && r == s[..|r|]
    ensures forall k :: |r| <= k < |s| ==> s[k] == '/'
    ensures r == [] || r[|r| - 1] != '/'
  {
    if |s| > 0 && s[|s| - 1] == '/' then RStripSlash(s[..|s| - 1]) else s
  }

  /** `f"{base_url.rstrip('/')}/?hash={current_hash}"`: the URL ends with the hash, after
      the query key, and starts with the base without its trailing slashes. */
  function VerificationUrl(base: string, h: string): (u: string)
    ensures |u| >= |h| + 7 && u[|u| - |h|..] == h && u[|u| - |h| - 7..|u| - |h|] == "/?hash="
    ensures u[..|u| - |h| - 7] == RStripSlash(base)
  {
    RStripSlash(base) + "/?hash=" + h
  }

  /** Trailing slashes of the base do not matter. */
  lemma {:induction false} UrlCarriesHash(base: string, h: string)
    ensures VerificationUrl(base + "/", h) == VerificationUrl(base, h)
  {
    var b := base + "/";
    assert b[..|b| - 1] == base;
  }

  /** The QR file name: `<CertID>.png`, or the 1-based row position padded to three
      digits when CertID is blank (`f"{i+1:03d}.png"`). */
  function QrFileName(certId: string, i: nat): (f: string)
    ensures |f| >= 4 && f[|f| - 4..] == ".png"
    ensures certId != "" ==> f[..|f| - 4] == certId
  {
    if certId != "" then certId + ".png" else ZeroPad(Decimal(i + 1), 3) + ".png"
  }

  /** A blank CertID gives a name whose digits read back as the row position. */
  lemma {:induction false} QrFileNameNumbered(i: nat)
    ensures var f := QrFileName("", i);
      |f| >= 7 && f[|f| - 4..] == ".png" && AllDigits(f[..|f| - 4])
      && DecimalValue(f[..|f| - 4]) == i + 1
    ensures i + 1 < 1000 ==> |QrFileName("", i)| == 7
  {
    var d := Decimal(i + 1);
    var p := ZeroPad(d, 3);
    var f := QrFileName("", i);
    assert f == p + ".png";
    assert f[..|f| - 4] == p;
    DecimalRoundTrip(i + 1);
    PaddedValue(d);
    if i + 1 < 1000 {
      DecimalShort(i + 1);
    }
  }

  lemma {:induction false} PaddedValue(d: string)
    requires AllDigits(d)
    ensures AllDigits(ZeroPad(d, 3)) && DecimalValue(ZeroPad(d, 3)) == DecimalValue(d)
  {
    if |d| < 3 {
      DecimalValueLeadingZeros(3 - |d|, d);
    }
  }

  lemma {:induction false} DecimalShort(n: nat)
    requires n < 1000
    ensures |Decimal(n)| <= 3
  {
    if n >= 10 {
      DecimalShort(n / 10);
    }
  }

  /** `os.path.join(dir, name)` on a POSIX system: an absolute name replaces the
      directory; otherwise the path is the directory, a separating slash unless the
      directory is empty or ends with one, and the name. */
  function JoinPath(dir: string, name: string): (p: string)
    ensures |p| >= |name| && p[|p| - |name|..] == name
    ensures |name| > 0 && name[0] == '/' ==> p == name
    ensures !(|name| > 0 && name[0] == '/') ==>
      && |dir| + |name| <= |p| <= |dir| + 1 + |name| && p[..|dir|] == dir
      && (dir == [] ==> p == name)
      && (dir != [] ==> p[|p| - |name| - 1] == '/')
  {
    if |name| > 0 && name[0] == '/' then name
    else if dir == [] || dir[|dir| - 1] == '/' then dir + name
    else dir + "/" + name
  }

  /** Lines 118-134: the VerificationURL, QRCodeURL and QRCodePath keys of row `i`. */
  function Enrich(rec: CertRecord, i: nat, cfg: Config, env: Env): (r: CertRecord)
    ensures r.(verificationUrl := None, qrCodeUrl := None, qrCodePath := None)
      == rec.(verificationUrl := None, qrCodeUrl := None, qrCodePath := None)
    ensures r.verificationUrl.Some? <==> cfg.baseUrl != ""
    ensures r.qrCodeUrl.Some? <==> cfg.baseUrl != "" && cfg.addQrUrl
    ensures r.qrCodePath.Some? ==> cfg.baseUrl != "" && cfg.qrDir != ""
  {
    if cfg.baseUrl == "" then rec.(verificationUrl := None, qrCodeUrl := None, qrCodePath := None)
    else
      var url := VerificationUrl(cfg.baseUrl, rec.currentHash);
      var qrPath :=
        if cfg.qrDir == "" then None
        else
          var path := JoinPath(cfg.qrDir, QrFileName(rec.certId, i));
          if env.downloadOk(env.qrUrl(url, cfg.qrSize), path)
          then Some(if cfg.qrAbsolute then env.absPath(path) else path)
          else None;
      rec.(verificationUrl := Some(url),
           qrCodeUrl := if cfg.addQrUrl then Some(env.qrUrl(url, cfg.qrSize)) else None,
           qrCodePath := qrPath)
  }

  // ---------------------------------------------------------------------------
  // The specification of the row loop

  /** Lines 89-116 for the row at position `|prior|` with cells `f`, `prior` being the
      records finished so far. The enrichment keys of lines 118-134 depend on nothing the
      loop reads later, so `EnrichAll` adds them afterwards. */
  function LinkRow(f: Fields, prior: seq<CertRecord>, env: Env): (r: Result<CertRecord, BuildError>)
    ensures r.Err? ==> IsRowError(r.error)
    ensures f.date.Err? <==> r.Err? && r.error.InvalidDate?
  {
    match f.date
    case Err(v) => Err(InvalidDate(v))
    case Ok(date) =>
      var prev := PreviousFor(f, prior);
      if !IsHex64(prev) then Err(InvalidPreviousHash(|prior| + 2, prev))
      else
        var current := env.hash(ConcatFields(f.certId, f.name, f.title, date, prev));
        if current in HashSet(prior) then Err(DuplicateHash(|prior| + 2, current))
        else Ok(CertRecord(f.certId, f.name, f.title, date, prev, current, None, None, None))
  }

  /** An error the row loop raises, as opposed to the checks before it. */
  predicate IsRowError(e: BuildError) {
    e.InvalidDate? || e.InvalidPreviousHash? || e.DuplicateHash?
  }

  /** The records the row loop produces, or the first error it raises. */
  function LinkRows(fs: seq<Fields>, env: Env): (r: Result<seq<CertRecord>, BuildError>)
    ensures r.Ok? ==> |r.value| == |fs|
    ensures r.Err? ==> IsRowError(r.error)
    decreases |fs|
  {
    if |fs| == 0 then Ok([])
    else
      match LinkRows(fs[..|fs| - 1], env)
      case Err(e) => Err(e)
      case Ok(prior) =>
        match LinkRow(fs[|fs| - 1], prior, env)
        case Err(e) => Err(e)
        case Ok(rec) => Ok(prior + [rec])
  }

  /** The records with their enrichment keys, record `i` enriched as row `i`. */
  function EnrichAll(rs: seq<CertRecord>, cfg: Config, env: Env): (r: seq<CertRecord>)
    ensures |r| == |rs| && forall i :: 0 <= i < |rs| ==> r[i] == Enrich(rs[i], i, cfg, env)
  {
    seq(|rs|, i requires 0 <= i < |rs| => Enrich(rs[i], i, cfg, env))
  }
  /** `[c for c in REQUIRED_COLUMNS if c not in fieldnames]`. */
  function MissingColumnsOf(header: seq<string>): (r: seq<string>)
    ensures forall c :: c in r <==> c in REQUIRED_COLUMNS && c !in header
  {
    Missing(REQUIRED_COLUMNS, header)
  }

  function Missing(cols: seq<string>, header: seq<string>): (r: seq<string>)
    ensures forall c :: c in r <==> c in cols && c !in header
  {
    if cols == [] then []
    else (if cols[0] in header then [] else [cols[0]]) + Missing(cols[1..], header)
  }

  /** Every column the output can have, in the order the header lists them. */
  const COLUMN_ORDER: seq<string> := REQUIRED_COLUMNS + ["VerificationURL", "QRCodeURL", "QRCodePath"]

  /** The position of the first `c` in `cols`, or `|cols|` when there is none. */
  function RankIn(c: string, cols: seq<string>): nat
    decreases |cols|
  {
    if |cols| == 0 || cols[0] == c then 0 else 1 + RankIn(c, cols[1..])
  }

  /** The position of a column in the output header order. */
  function ColumnRank(c: string): nat {
    RankIn(c, COLUMN_ORDER)
  }

  lemma {:induction false} RankInDistinct(cols: seq<string>, k: nat)
    requires k < |cols| && forall i, j :: 0 <= i < j < |cols| ==> cols[i] != cols[j]
    ensures RankIn(cols[k], cols) == k
    decreases k
  {
    if k > 0 {
      var t := cols[1..];
      assert cols[0] != cols[k] && t[k - 1] == cols[k];
      assert forall i, j :: 0 <= i < j < |t| ==> t[i] != t[j] by {
        forall i, j | 0 <= i < j < |t| ensures t[i] != t[j] {
          assert t[i] == cols[i + 1] && t[j] == cols[j + 1];
        }
      }
      RankInDistinct(t, k - 1);
    }
  }

  /** The columns of the output order are distinct, so each has its own position. */
  lemma {:induction false} ColumnOrderRanks()
    ensures |COLUMN_ORDER| == 9 && forall k :: 0 <= k < 9 ==> ColumnRank(COLUMN_ORDER[k]) == k
  {
    var o := COLUMN_ORDER;
    assert o[2][1] != o[5][1] && o[3][0] != o[8][0];
    forall i, j | 0 <= i < j < |o| ensures o[i] != o[j] {
      assert |o[i]| != |o[j]| || (i == 2 && j == 5) || (i == 3 && j == 8);
    }
    forall k | 0 <= k < 9 ensures ColumnRank(o[k]) == k {
      RankInDistinct(o, k);
    }
  }

  lemma {:induction false} RequiredColumnsFacts()
    ensures forall k :: 0 <= k < 6 ==> ColumnRank(REQUIRED_COLUMNS[k]) == k
    ensures "VerificationURL" !in REQUIRED_COLUMNS
    ensures "QRCodeURL" !in REQUIRED_COLUMNS && "QRCodePath" !in REQUIRED_COLUMNS
  {
    ColumnOrderRanks();
    assert forall k :: 0 <= k < 6 ==> COLUMN_ORDER[k] == REQUIRED_COLUMNS[k];
    assert |"VerificationURL"| == 15;
    assert "QRCodeURL"[0] == 'Q' && "QRCodePath"[0] == 'Q';
    assert forall c :: c in REQUIRED_COLUMNS ==> c[0] != 'Q';
  }

  /** The columns enrichment adds, in order. */
  function OptionalColumns(cfg: Config): seq<string> {
    (if cfg.baseUrl != "" then ["VerificationURL"] else [])
      + (if cfg.addQrUrl then ["QRCodeURL"] else [])
      + (if cfg.qrDir != "" then ["QRCodePath"] else [])
  }

  lemma {:induction false} OptionalColumnsFacts(cfg: Config)
    ensures var opt := OptionalColumns(cfg);
      && ("VerificationURL" in opt <==> cfg.baseUrl != "")
      && ("QRCodeURL" in opt <==> cfg.addQrUrl)
      && ("QRCodePath" in opt <==> cfg.qrDir != "")
      && (forall k :: 0 <= k < |opt| ==> 6 <= ColumnRank(opt[k]))
      && (forall k :: 0 < k < |opt| ==> ColumnRank(opt[k - 1]) < ColumnRank(opt[k]))
  {
    OptionalRanks();
  }

  lemma {:induction false} OptionalRanks()
    ensures ColumnRank("VerificationURL") == 6 && ColumnRank("QRCodeURL") == 7 && ColumnRank("QRCodePath") == 8
  {
    ColumnOrderRanks();
    assert COLUMN_ORDER[6] == "VerificationURL" && COLUMN_ORDER[7] == "QRCodeURL" && COLUMN_ORDER[8] == "QRCodePath";
  }

  /** `out_fieldnames`: REQUIRED_COLUMNS with the optional columns appended, one for each
      option that is set. */
  function OutputColumns(cfg: Config): (cols: seq<string>)
    ensures |cols| >= 6 && cols[..6] == REQUIRED_COLUMNS
    ensures |cols| == 6 + (if cfg.baseUrl != "" then 1 else 0) + (if cfg.addQrUrl then 1 else 0)
                        + (if cfg.qrDir != "" then 1 else 0)
  {
    REQUIRED_COLUMNS
      + (if cfg.baseUrl != "" then ["VerificationURL"] else [])
      + (if cfg.addQrUrl then ["QRCodeURL"] else [])
      + (if cfg.qrDir != "" then ["QRCodePath"] else [])
  }

  /** The output columns as lines 138-144 build them, one `append` at a time. */
  lemma {:induction false} OutputColumnsAppended(cfg: Config)
    ensures var c0 := REQUIRED_COLUMNS;
      var c1 := if cfg.baseUrl != "" then c0 + ["VerificationURL"] else c0;
      var c2 := if cfg.addQrUrl then c1 + ["QRCodeURL"] else c1;
      OutputColumns(cfg) == if cfg.qrDir != "" then c2 + ["QRCodePath"] else c2
  {
    var e: seq<string> := [];
    assert REQUIRED_COLUMNS + e == REQUIRED_COLUMNS;
  }

  lemma {:induction false} OutputColumnsSplit(cfg: Config)
    ensures OutputColumns(cfg) == REQUIRED_COLUMNS + OptionalColumns(cfg)
  {
  }

  /** The output columns are the required ones, then VerificationURL, QRCodeURL and
      QRCodePath each exactly when its option is set, in that order. */
  lemma {:induction false} OutputColumnsOrder(cfg: Config)
    ensures var cols := OutputColumns(cfg);
      && |cols| >= 6 && cols[..6] == REQUIRED_COLUMNS
      && ("VerificationURL" in cols <==> cfg.baseUrl != "")
      && ("QRCodeURL" in cols <==> cfg.addQrUrl)
      && ("QRCodePath" in cols <==> cfg.qrDir != "")
      && forall k :: 0 < k < |cols| ==> ColumnRank(cols[k - 1]) < ColumnRank(cols[k])
  {
    OutputColumnsMembers(cfg);
    OutputColumnsRanks(cfg);
  }

  lemma {:induction false} OutputColumnsMembers(cfg: Config)
    ensures var cols := OutputColumns(cfg);
      && |cols| >= 6 && cols[..6] == REQUIRED_COLUMNS
      && ("VerificationURL" in cols <==> cfg.baseUrl != "")
      && ("QRCodeURL" in cols <==> cfg.addQrUrl)
      && ("QRCodePath" in cols <==> cfg.qrDir != "")
  {
    RequiredColumnsFacts();
    OptionalColumnsFacts(cfg);
    OutputColumnsSplit(cfg);
    var opt := OptionalColumns(cfg);
    assert forall x :: x in REQUIRED_COLUMNS + opt <==> x in REQUIRED_COLUMNS || x in opt;
  }

  lemma {:induction false} OutputColumnsRanks(cfg: Config)
    ensures var cols := OutputColumns(cfg);
      forall k :: 0 < k < |cols| ==> ColumnRank(cols[k - 1]) < ColumnRank(cols[k])
  {
    RequiredColumnsFacts();
    OptionalColumnsFacts(cfg);
    PositionRanks(REQUIRED_COLUMNS);
    RanksAppend(REQUIRED_COLUMNS, OptionalColumns(cfg));
    OutputColumnsSplit(cfg);
  }

  lemma {:induction false} PositionRanks(a: seq<string>)
    requires forall k :: 0 <= k < |a| ==> ColumnRank(a[k]) == k
    ensures forall k :: 0 < k < |a| ==> ColumnRank(a[k - 1]) < ColumnRank(a[k])
  {
    forall k | 0 < k < |a| ensures ColumnRank(a[k - 1]) < ColumnRank(a[k]) {
      assert ColumnRank(a[k - 1]) == k - 1;
    }
  }

  lemma {:induction false} RanksAppend(a: seq<string>, b: seq<string>)
    requires forall k :: 0 < k < |a| ==> ColumnRank(a[k - 1]) < ColumnRank(a[k])
    requires forall k :: 0 < k < |b| ==> ColumnRank(b[k - 1]) < ColumnRank(b[k])
    requires |a| > 0 && |b| > 0 ==> ColumnRank(a[|a| - 1]) < ColumnRank(b[0])
    ensures forall k :: 0 < k < |a + b| ==> ColumnRank((a + b)[k - 1]) < ColumnRank((a + b)[k])
  {
    var c := a + b;
    forall k | 0 < k < |c| ensures ColumnRank(c[k - 1]) < ColumnRank(c[k]) {
      if k < |a| {
        assert c[k - 1] == a[k - 1] && c[k] == a[k];
      } else if k == |a| {
        assert c[k - 1] == a[k - 1] && c[k] == b[0];
      } else {
        assert c[k - 1] == b[k - 1 - |a|] && c[k] == b[k - |a|];
      }
    }
  }

  /** `{row["CurrentHash"]: i for i, row in enumerate(output_rows)}`: a later row
      overwrites an earlier one with the same hash. */
  function HashIndex(rs: seq<CertRecord>): (m: map<string, nat>)
    ensures m.Keys == HashSet(rs)
    ensures forall h :: h in m ==> m[h] < |rs| && rs[m[h]].currentHash == h
    decreases |rs|
  {
    if |rs| == 0 then map[]
    else
      var prior := rs[..|rs| - 1];
      assert HashSet(rs) == HashSet(prior) + {rs[|rs| - 1].currentHash} by {
        assert rs == prior + [rs[|rs| - 1]];
      }
      HashIndex(prior)[rs[|rs| - 1].currentHash := |rs| - 1]
  }

  /** The whole of `chain_certificates` from the parsed CSV on: the artifacts it writes,
      or the error it raises before writing any of them. A build that succeeds has one
      record per row, the output columns of its options and an index over the hashes of
      its records; one that fails names missing columns, an empty input or a row. */
  function Build(header: seq<string>, rows: seq<Row>, cfg: Config, env: Env): (r: Result<ChainOutput, BuildError>)
    ensures r.Ok? ==>
      && |rows| > 0 && |r.value.records| == |rows|
      && r.value.columns == OutputColumns(cfg)
    ensures r.Err? ==>
      || (r.error.MissingColumns? && |r.error.columns| > 0)
      || (r.error == NoDataRows && |rows| == 0)
      || IsRowError(r.error)
  {
    var missing := MissingColumnsOf(header);
    if |missing| > 0 then Err(MissingColumns(missing))
    else if |rows| == 0 then Err(NoDataRows)
    else
      match LinkRows(RowsFields(rows), env)
      case Err(e) => Err(e)
      case Ok(chain) =>
        var out := EnrichAll(chain, cfg, env);
        Ok(ChainOutput(out, OutputColumns(cfg), HashIndex(out)))
  }

  /** One more row of the loop, given the records of the rows before it. */
  lemma {:induction false} LinkStep(fs: seq<Fields>, i: nat, chain: seq<CertRecord>, env: Env)
    requires i < |fs| && LinkRows(fs[..i], env) == Ok(chain)
    ensures LinkRows(fs[..i + 1], env) ==
      match LinkRow(fs[i], chain, env)
      case Err(e) => Err(e)
      case Ok(rec) => Ok(chain + [rec])
  {
    assert fs[..i + 1][..i] == fs[..i];
  }

  /** The last step of a loop whose records so far are `out` without its last one. */
  lemma {:induction false} LinkSnoc(fs: seq<Fields>, out: seq<CertRecord>, env: Env)
    requires |fs| > 0 && |out| == |fs| && LinkRows(fs[..|fs| - 1], env) == Ok(out[..|out| - 1])
    requires LinkRow(fs[|fs| - 1], out[..|out| - 1], env) == Ok(out[|out| - 1])
    ensures LinkRows(fs, env) == Ok(out)
  {
    SnocLast(out);
  }

  lemma {:induction false} SnocLast<T>(s: seq<T>)
    requires |s| > 0
    ensures s[..|s| - 1] + [s[|s| - 1]] == s
  {
  }

  lemma {:induction false} SnocPrefix<T>(p: seq<T>, x: T)
    ensures (p + [x])[..|p|] == p && (p + [x])[|p|] == x
  {
  }

  lemma {:induction false} TakeAll<T>(s: seq<T>)
    ensures s[..|s|] == s
  {
  }

  lemma {:induction false} HashSetAppend(rs: seq<CertRecord>, rec: CertRecord)
    ensures HashSet(rs + [rec]) == HashSet(rs) + {rec.currentHash}
  {
    assert forall r :: r in rs + [rec] <==> r in rs || r == rec;
  }

  lemma {:induction false} EnrichAllAppend(rs: seq<CertRecord>, rec: CertRecord, cfg: Config, env: Env)
    ensures EnrichAll(rs + [rec], cfg, env) == EnrichAll(rs, cfg, env) + [Enrich(rec, |rs|, cfg, env)]
  {
    assert forall i :: 0 <= i < |rs| ==> (rs + [rec])[i] == rs[i];
  }

  /** A failed prefix makes the whole loop fail with the same error. */
  lemma {:induction false} LinkFailsFromPrefix(fs: seq<Fields>, k: nat, env: Env)
    requires k <= |fs| && LinkRows(fs[..k], env).Err?
    ensures LinkRows(fs, env) == LinkRows(fs[..k], env)
    decreases |fs|
  {
    if k < |fs| {
      var p := fs[..|fs| - 1];
      assert p[..k] == fs[..k];
      LinkFailsFromPrefix(p, k, env);
    } else {
      assert fs[..k] == fs;
    }
  }

  /** The build of rows whose loop succeeds. */
  lemma {:induction false} BuildOk(header: seq<string>, rows: seq<Row>, chain: seq<CertRecord>, cfg: Config, env: Env)
    requires |MissingColumnsOf(header)| == 0 && |rows| > 0
    requires LinkRows(RowsFields(rows), env) == Ok(chain)
    ensures Build(header, rows, cfg, env)
      == Ok(ChainOutput(EnrichAll(chain, cfg, env), OutputColumns(cfg), HashIndex(EnrichAll(chain, cfg, env))))
  {
  }

  /** The build of rows whose loop fails at row `i`. */
  lemma {:induction false} BuildFailsAt(header: seq<string>, rows: seq<Row>, i: nat, chain: seq<CertRecord>, env: Env, cfg: Config)
    requires |MissingColumnsOf(header)| == 0 && i < |rows|
    requires LinkRows(RowsFields(rows)[..i], env) == Ok(chain)
    requires LinkRow(RowsFields(rows)[i], chain, env).Err?
    ensures Build(header, rows, cfg, env) == Err(LinkRow(RowsFields(rows)[i], chain, env).error)
  {
    var fs := RowsFields(rows);
    LinkStep(fs, i, chain, env);
    LinkFailsFromPrefix(fs, i + 1, env);
  }

  /** Enrichment keeps CurrentHash, which is all `LinkRow` reads of earlier records. */
  lemma {:induction false} LinkRowEnriched(f: Fields, chain: seq<CertRecord>, cfg: Config, env: Env)
    ensures LinkRow(f, EnrichAll(chain, cfg, env), env) == LinkRow(f, chain, env)
  {
    var out := EnrichAll(chain, cfg, env);
    HashSetEnriched(chain, cfg, env);
    if |chain| > 0 {
      assert out[|chain| - 1].currentHash == chain[|chain| - 1].currentHash;
    }
    assert PreviousFor(f, out) == PreviousFor(f, chain);
  }

  lemma {:induction false} HashSetEnriched(chain: seq<CertRecord>, cfg: Config, env: Env)
    ensures HashSet(EnrichAll(chain, cfg, env)) == HashSet(chain)
  {
    var out := EnrichAll(chain, cfg, env);
    forall h | h in HashSet(chain) ensures h in HashSet(out) {
      var k :| 0 <= k < |chain| && chain[k].currentHash == h;
      assert out[k].currentHash == h;
    }
  }

  /** The body of the loop of lines 82-116 for the row after `output`, `seen` being the
      set of its CurrentHash values. */
  method LinkNext(row: Row, output: seq<CertRecord>, seen: set<string>, env: Env)
    returns (res: Result<CertRecord, BuildError>)
    requires seen == HashSet(output)
    ensures res == LinkRow(RowFields(row), output, env)
  {
    var i := |output|;
    var certId := Trim(Get(row, "CertID"));
    var name := Trim(Get(row, "RecipientName"));
    var title := Trim(Get(row, "CourseTitle"));
    var date := NormalizeDate(Get(row, "DateIssued"));
    if date.Err? {
      return Err(InvalidDate(date.error));
    }
    var prevRaw := Trim(Get(row, "PreviousHash"));
    var prev: string;
    if i == 0 {
      prev := if |prevRaw| > 0 then prevRaw else GENESIS_HASH;
    } else {
      var t := Trim(output[i - 1].currentHash);
      prev := if |t| > 0 then t else GENESIS_HASH;
    }
    prev := Lower(prev);
    if !IsHex64(prev) {
      return Err(InvalidPreviousHash(i + 2, prev));
    }
    var current := env.hash(ConcatFields(certId, name, title, date.value, prev));
    if current in seen {
      return Err(DuplicateHash(i + 2, current));
    }
    return Ok(CertRecord(certId, name, title, date.value, prev, current, None, None, None));
  }

  /** `chain_certificates` after the CSV is read: the schema and empty-input checks, the
      row loop over `output_rows` and `seen_hashes`, and `out_fieldnames`. */
  method ChainCertificates(header: seq<string>, rows: seq<Row>, cfg: Config, env: Env)
    returns (r: Result<ChainOutput, BuildError>)
    ensures r == Build(header, rows, cfg, env)
  {
    var missing := MissingColumnsOf(header);
    if |missing| > 0 {
      return Err(MissingColumns(missing));
    }
    if |rows| == 0 {
      return Err(NoDataRows);
    }
    ghost var fs := RowsFields(rows);
    ghost var chain: seq<CertRecord> := [];
    var output: seq<CertRecord> := [];
    var seen: set<string> := {};
    var i := 0;
    while i < |rows|
      invariant 0 <= i <= |rows|
      invariant LinkRows(fs[..i], env) == Ok(chain)
      invariant output == EnrichAll(chain, cfg, env)
      invariant seen == HashSet(output)
    {
      var link := LinkNext(rows[i], output, seen, env);
      RowsFieldsAt(rows, i);
      LinkRowEnriched(fs[i], chain, cfg, env);
      if link.Err? {
        BuildFailsAt(header, rows, i, chain, env, cfg);
        return Err(link.error);
      }
      var rec := Enrich(link.value, i, cfg, env);
      LinkStep(fs, i, chain, env);
      HashSetAppend(output, rec);
      EnrichAllAppend(chain, link.value, cfg, env);
      seen := seen + {rec.currentHash};
      output := output + [rec];
      chain := chain + [link.value];
      i := i + 1;
    }
    TakeAll(fs);
    BuildOk(header, rows, chain, cfg, env);
    var columns := REQUIRED_COLUMNS;
    if cfg.baseUrl != "" {
      columns := columns + ["VerificationURL"];
    }
    if cfg.addQrUrl {
      columns := columns + ["QRCodeURL"];
    }
    if cfg.qrDir != "" {
      columns := columns + ["QRCodePath"];
    }
    OutputColumnsAppended(cfg);
    return Ok(ChainOutput(output, columns, HashIndex(output)));
  }

  // ---------------------------------------------------------------------------
  // Chain validity and the properties of the loop

  /** A record without its enrichment fields: the part the hash covers. */
  function Unenriched(r: CertRecord): CertRecord {
    r.(verificationUrl := None, qrCodeUrl := None, qrCodePath := None)
  }

  function Core(rs: seq<CertRecord>): (c: seq<CertRecord>)
    ensures |c| == |rs| && forall i :: 0 <= i < |rs| ==> c[i] == Unenriched(rs[i])
  {
    seq(|rs|, i requires 0 <= i < |rs| => Unenriched(rs[i]))
  }

  /** `rec` is the record of a row with cells `f` (lines 109-116): the normalised fields, a
      previous hash of the accepted format (lines 94-98), the SHA-256 of the five fields
      as CurrentHash (lines 100-101), and no enrichment key. */
  predicate RecordOf(rec: CertRecord, f: Fields, env: Env) {
    && rec.certId == f.certId && rec.name == f.name && rec.title == f.title
    && f.date == Ok(rec.dateIssued)
    && IsHex64(rec.previousHash)
    && rec.currentHash == env.hash(ConcatFields(rec.certId, rec.name, rec.title, rec.dateIssued, rec.previousHash))
    && rec.verificationUrl == None && rec.qrCodeUrl == None && rec.qrCodePath == None
  }

  /** A valid chain over rows with cells `fs`: one record per row, the first linked to the
      first row's own PreviousHash or to the genesis hash, each later one to the
      CurrentHash of the record before it, and all CurrentHash values pairwise distinct. */
  predicate LinkedChain(out: seq<CertRecord>, fs: seq<Fields>, env: Env) {
    && |out| == |fs|
    && (|out| > 0 ==> out[0].previousHash == FirstPrevious(fs[0]))
    && (forall i :: 0 < i < |out| ==> out[i].previousHash == out[i - 1].currentHash)
    && (forall i :: 0 <= i < |out| ==> RecordOf(out[i], fs[i], env))
    && (forall i, j :: 0 <= i < j < |out| ==> out[i].currentHash != out[j].currentHash)
  }

  /** The linked previous hash is exactly the CurrentHash of the record before. */
  lemma {:induction false} LinkedPreviousIsHash(prior: seq<CertRecord>, h: Digest)
    requires |prior| > 0 && prior[|prior| - 1].currentHash == h
    ensures LinkedPrevious(prior) == h
  {
    DigestStable(h);
  }

  /** The previous hash a row links to, when the records before it form a chain. */
  lemma {:induction false} PreviousInChain(prior: seq<CertRecord>, fs: seq<Fields>, f: Fields, env: Env)
    requires LinkedChain(prior, fs, env)
    ensures PreviousFor(f, prior) == if |prior| == 0 then FirstPrevious(f) else prior[|prior| - 1].currentHash
  {
    if |prior| > 0 {
      var last := prior[|prior| - 1];
      assert RecordOf(last, fs[|prior| - 1], env);
      LinkedPreviousIsHash(prior, env.hash(ConcatFields(last.certId, last.name, last.title, last.dateIssued, last.previousHash)));
    }
  }

  /** `rec` is what the step for a row with cells `f` yields after `prior`: its record,
      linked to the previous hash, with a CurrentHash not seen before. */
  predicate StepOk(rec: CertRecord, f: Fields, prior: seq<CertRecord>, env: Env) {
    && RecordOf(rec, f, env) && rec.previousHash == PreviousFor(f, prior)
    && rec.currentHash !in HashSet(prior)
  }

  /** The errors of a step: the value that fails to parse as a date, the previous hash
      that fails the format check, or the hash of the row's fields that an earlier record
      already has. */
  lemma {:induction false} LinkRowErrors(f: Fields, prior: seq<CertRecord>, env: Env)
    ensures var r := LinkRow(f, prior, env);
      && (f.date.Err? ==> r == Err(InvalidDate(f.date.error)))
      && (r.Err? && r.error.InvalidPreviousHash? ==>
            f.date.Ok? && r.error.value == PreviousFor(f, prior) && !IsHex64(r.error.value))
      && (r.Err? && r.error.DuplicateHash? ==>
            && f.date.Ok? && IsHex64(PreviousFor(f, prior)) && r.error.hash in HashSet(prior)
            && r.error.hash == env.hash(ConcatFields(f.certId, f.name, f.title, f.date.value, PreviousFor(f, prior))))
  {
  }

  /** A successful step yields such a record. */
  lemma {:induction false} LinkRowOk(f: Fields, prior: seq<CertRecord>, env: Env)
    requires LinkRow(f, prior, env).Ok?
    ensures StepOk(LinkRow(f, prior, env).value, f, prior, env)
  {
  }

  /** Conversely, such a record is what the step yields. */
  lemma {:induction false} LinkRowAccepts(f: Fields, prior: seq<CertRecord>, rec: CertRecord, env: Env)
    requires StepOk(rec, f, prior, env)
    ensures LinkRow(f, prior, env) == Ok(rec)
  {
  }

  /** `out` is built from the rows step by step. */
  predicate ChainSteps(out: seq<CertRecord>, fs: seq<Fields>, env: Env)
    decreases |fs|
  {
    && |out| == |fs|
    && (|fs| == 0
        || (ChainSteps(out[..|fs| - 1], fs[..|fs| - 1], env)
            && StepOk(out[|fs| - 1], fs[|fs| - 1], out[..|fs| - 1], env)))
  }

  lemma {:induction false} LinksAreSteps(fs: seq<Fields>, env: Env)
    requires LinkRows(fs, env).Ok?
    ensures ChainSteps(LinkRows(fs, env).value, fs, env)
    decreases |fs|
  {
    if |fs| > 0 {
      var n := |fs|;
      var prior := LinkRows(fs[..n - 1], env).value;
      LinksAreSteps(fs[..n - 1], env);
      LinkRowOk(fs[n - 1], prior, env);
      var out := LinkRows(fs, env).value;
      assert out == prior + [LinkRow(fs[n - 1], prior, env).value];
      SnocPrefix(prior, LinkRow(fs[n - 1], prior, env).value);
    }
  }

  lemma {:induction false} StepsAreLinks(fs: seq<Fields>, out: seq<CertRecord>, env: Env)
    requires ChainSteps(out, fs, env)
    ensures LinkRows(fs, env) == Ok(out)
    decreases |fs|
  {
    if |fs| > 0 {
      var n := |fs|;
      StepsAreLinks(fs[..n - 1], out[..n - 1], env);
      LinkRowAccepts(fs[n - 1], out[..n - 1], out[n - 1], env);
      LinkSnoc(fs, out, env);
    }
  }

  lemma {:induction false} LinksExactlySteps(fs: seq<Fields>, out: seq<CertRecord>, env: Env)
    ensures LinkRows(fs, env) == Ok(out) <==> ChainSteps(out, fs, env)
  {
    if LinkRows(fs, env) == Ok(out) {
      LinksAreSteps(fs, env);
    }
    if ChainSteps(out, fs, env) {
      StepsAreLinks(fs, out, env);
    }
  }

  /** A chain extended by a record of the next row, linked to the chain and with a new
      CurrentHash, is a chain. */
  lemma {:induction false} ChainExtend(prior: seq<CertRecord>, fs: seq<Fields>, rec: CertRecord, f: Fields, env: Env)
    requires LinkedChain(prior, fs, env) && StepOk(rec, f, prior, env)
    ensures LinkedChain(prior + [rec], fs + [f], env)
  {
    var out := prior + [rec];
    var gs := fs + [f];
    PreviousInChain(prior, fs, f, env);
    forall i | 0 < i < |out| ensures out[i].previousHash == out[i - 1].currentHash {
      if i < |prior| {
        assert out[i] == prior[i] && out[i - 1] == prior[i - 1];
      }
    }
    forall i | 0 <= i < |out| ensures RecordOf(out[i], gs[i], env) {
      if i < |prior| {
        assert out[i] == prior[i] && gs[i] == fs[i];
      }
    }
    forall i, j | 0 <= i < j < |out| ensures out[i].currentHash != out[j].currentHash {
      if j == |prior| {
        assert prior[i] in prior;
      } else {
        assert out[i] == prior[i] && out[j] == prior[j];
      }
    }
  }

  /** The chain without its last record is a chain over the rows before, and its last
      record is linked to it the way a step links. */
  lemma {:induction false} ChainLast(out: seq<CertRecord>, fs: seq<Fields>, env: Env)
    requires LinkedChain(out, fs, env) && |fs| > 0
    ensures var n := |fs|;
      LinkedChain(out[..n - 1], fs[..n - 1], env) && StepOk(out[n - 1], fs[n - 1], out[..n - 1], env)
  {
    ChainPrefix(out, fs, |fs| - 1, env);
    LastStep(out, fs, env);
  }

  lemma {:induction false} LastStep(out: seq<CertRecord>, fs: seq<Fields>, env: Env)
    requires LinkedChain(out, fs, env) && |fs| > 0
    ensures var n := |fs|; StepOk(out[n - 1], fs[n - 1], out[..n - 1], env)
  {
    var n := |fs|;
    var prior := out[..n - 1];
    assert RecordOf(out[n - 1], fs[n - 1], env);
    if n > 1 {
      var last := out[n - 2];
      assert prior[n - 2] == last && RecordOf(last, fs[n - 2], env);
      LinkedPreviousIsHash(prior, env.hash(ConcatFields(last.certId, last.name, last.title, last.dateIssued, last.previousHash)));
    }
    forall i | 0 <= i < n - 1 ensures prior[i].currentHash != out[n - 1].currentHash {
      assert prior[i] == out[i];
    }
    NotInHashSet(prior, out[n - 1].currentHash);
  }

  lemma {:induction false} NotInHashSet(rs: seq<CertRecord>, h: string)
    requires forall i :: 0 <= i < |rs| ==> rs[i].currentHash != h
    ensures h !in HashSet(rs)
  {
    forall r | r in rs ensures r.currentHash != h {
      var i :| 0 <= i < |rs| && rs[i] == r;
    }
  }

  /** Every prefix of a chain is a chain over the rows before. */
  lemma {:induction false} ChainPrefix(out: seq<CertRecord>, fs: seq<Fields>, m: nat, env: Env)
    requires LinkedChain(out, fs, env) && m <= |fs|
    ensures LinkedChain(out[..m], fs[..m], env)
  {
  }

  /** Building step by step is building a valid chain. */
  lemma {:induction false} StepsExactlyChains(out: seq<CertRecord>, fs: seq<Fields>, env: Env)
    ensures ChainSteps(out, fs, env) <==> LinkedChain(out, fs, env)
    decreases |fs|
  {
    if |fs| > 0 && |out| == |fs| {
      var n := |fs|;
      StepsExactlyChains(out[..n - 1], fs[..n - 1], env);
      assert fs[..n - 1] + [fs[n - 1]] == fs && out[..n - 1] + [out[n - 1]] == out;
      if ChainSteps(out, fs, env) {
        ChainExtend(out[..n - 1], fs[..n - 1], out[n - 1], fs[n - 1], env);
      }
      if LinkedChain(out, fs, env) {
        ChainLast(out, fs, env);
      }
    }
  }

  /** The loop succeeds with `out` exactly when `out` is a valid chain over the rows: the
      chain, if any, is unique, and the loop finds it. */
  lemma {:induction false} LinksExactlyChains(fs: seq<Fields>, out: seq<CertRecord>, env: Env)
    ensures LinkRows(fs, env) == Ok(out) <==> LinkedChain(out, fs, env)
  {
    LinksExactlySteps(fs, out, env);
    StepsExactlyChains(out, fs, env);
  }

  /** Soundness: records the loop produces form a valid chain over their rows. */
  lemma {:induction false} LinksSound(fs: seq<Fields>, env: Env)
    requires LinkRows(fs, env).Ok?
    ensures LinkedChain(LinkRows(fs, env).value, fs, env)
  {
    LinksExactlyChains(fs, LinkRows(fs, env).value, env);
  }

  /** A failed loop stopped at its first bad row: every row before that one linked, and
      the error is the one that row raised. */
  lemma {:induction false} FailsAtFirstBadRow(fs: seq<Fields>, env: Env)
    requires LinkRows(fs, env).Err?
    ensures exists k ::
              && 0 <= k < |fs| && LinkRows(fs[..k], env).Ok?
              && LinkRow(fs[k], LinkRows(fs[..k], env).value, env) == Err(LinkRows(fs, env).error)
    decreases |fs|
  {
    var n := |fs|;
    var p := fs[..n - 1];
    if LinkRows(p, env).Err? {
      FailsAtFirstBadRow(p, env);
      var k :| 0 <= k < |p| && LinkRows(p[..k], env).Ok?
        && LinkRow(p[k], LinkRows(p[..k], env).value, env) == Err(LinkRows(p, env).error);
      assert p[..k] == fs[..k] && p[k] == fs[k];
      assert LinkRows(fs, env) == LinkRows(p, env);
    } else {
      assert LinkRow(fs[n - 1], LinkRows(fs[..n - 1], env).value, env) == Err(LinkRows(fs, env).error);
    }
  }

  /** An error that names a row names the failing row: its 0-based position plus 2. */
  lemma {:induction false} RowErrorNumber(fs: seq<Fields>, env: Env)
    requires LinkRows(fs, env).Err?
    ensures var e := LinkRows(fs, env).error;
      (e.InvalidPreviousHash? || e.DuplicateHash?) ==>
        var k := e.row - 2;
        && 0 <= k < |fs| && LinkRows(fs[..k], env).Ok?
        && LinkRow(fs[k], LinkRows(fs[..k], env).value, env) == Err(e)
  {
    FailsAtFirstBadRow(fs, env);
    var e := LinkRows(fs, env).error;
    var k :| && 0 <= k < |fs| && LinkRows(fs[..k], env).Ok?
             && LinkRow(fs[k], LinkRows(fs[..k], env).value, env) == Err(e);
    LinkRowErrorRow(fs[k], LinkRows(fs[..k], env).value, env);
  }

  /** A row error names the row by the number of records before it, plus 2. */
  lemma {:induction false} LinkRowErrorRow(f: Fields, prior: seq<CertRecord>, env: Env)
    requires LinkRow(f, prior, env).Err?
    ensures var e := LinkRow(f, prior, env).error;
      (e.InvalidPreviousHash? || e.DuplicateHash?) ==> e.row == |prior| + 2
  {
  }

  /** Lines 100-107: a duplicate is the hash of the failing row's own fields, and it is
      the CurrentHash of an earlier record. */
  lemma {:induction false} DuplicateReported(fs: seq<Fields>, env: Env)
    requires LinkRows(fs, env).Err? && LinkRows(fs, env).error.DuplicateHash?
    ensures var e := LinkRows(fs, env).error;
      var k := e.row - 2;
      && 0 <= k < |fs| && LinkRows(fs[..k], env).Ok? && fs[k].date.Ok?
      && (var prior := LinkRows(fs[..k], env).value;
          && e.hash in HashSet(prior)
          && e.hash == env.hash(ConcatFields(fs[k].certId, fs[k].name, fs[k].title, fs[k].date.value,
                                             PreviousFor(fs[k], prior))))
  {
    RowErrorNumber(fs, env);
  }

  /** A row after the first links to a digest, which passes the format check. */
  lemma {:induction false} LaterPreviousPasses(prior: seq<CertRecord>, fs: seq<Fields>, f: Fields, env: Env)
    requires LinkedChain(prior, fs, env) && |prior| > 0
    ensures IsHex64(PreviousFor(f, prior))
  {
    var last := prior[|prior| - 1];
    assert RecordOf(last, fs[|prior| - 1], env);
    PreviousInChain(prior, fs, f, env);
    DigestPassesCheck(env.hash(ConcatFields(last.certId, last.name, last.title, last.dateIssued, last.previousHash)));
  }

  /** Only the first row can fail the previous-hash check (lines 94-98), with its own
      PreviousHash or the genesis hash, lower-cased. */
  lemma {:induction false} InvalidPreviousOnlyFirst(fs: seq<Fields>, env: Env)
    requires LinkRows(fs, env).Err? && LinkRows(fs, env).error.InvalidPreviousHash?
    ensures var e := LinkRows(fs, env).error;
      e.row == 2 && |fs| > 0 && e.value == FirstPrevious(fs[0]) && !IsHex64(e.value)
  {
    RowErrorNumber(fs, env);
    var k := LinkRows(fs, env).error.row - 2;
    if k > 0 {
      LinksSound(fs[..k], env);
      LaterPreviousPasses(LinkRows(fs[..k], env).value, fs[..k], fs[k], env);
    }
  }

  lemma {:induction false} LinkRowIgnoresPrevious(f: Fields, g: Fields, prior: seq<CertRecord>, env: Env)
    requires |prior| > 0 && g == f.(previousHash := g.previousHash)
    ensures LinkRow(f, prior, env) == LinkRow(g, prior, env)
  {
  }

  /** Rows that agree except in the PreviousHash cells after the first link alike. */
  lemma {:induction false} LinkRowsAgree(fs: seq<Fields>, gs: seq<Fields>, env: Env)
    requires |fs| == |gs| && (|fs| > 0 ==> fs[0] == gs[0])
    requires forall i :: 0 < i < |fs| ==> gs[i] == fs[i].(previousHash := gs[i].previousHash)
    ensures LinkRows(fs, env) == LinkRows(gs, env)
    decreases |fs|
  {
    if |fs| > 0 {
      var n := |fs|;
      LinkRowsAgree(fs[..n - 1], gs[..n - 1], env);
      if n > 1 && LinkRows(fs[..n - 1], env).Ok? {
        LinkRowIgnoresPrevious(fs[n - 1], gs[n - 1], LinkRows(fs[..n - 1], env).value, env);
      }
    }
  }

  /** Line 92: the PreviousHash cell of a row after the first is never read. */
  lemma {:induction false} LaterPreviousIgnored(fs: seq<Fields>, k: nat, v: string, env: Env)
    requires 0 < k < |fs|
    ensures LinkRows(fs[k := fs[k].(previousHash := v)], env) == LinkRows(fs, env)
  {
    LinkRowsAgree(fs, fs[k := fs[k].(previousHash := v)], env);
  }

  /** With a base URL, a record is given the URL that carries its hash; its QR code is
      the QR image of that URL; the QR path is present exactly when a QR directory is set
      and the image of that URL downloads to the file of the record in that directory,
      and it is that file's path, made absolute when asked. */
  lemma {:induction false} EnrichValues(rec: CertRecord, i: nat, cfg: Config, env: Env)
    requires cfg.baseUrl != ""
    ensures var r := Enrich(rec, i, cfg, env);
      var h := rec.currentHash;
      var path := JoinPath(cfg.qrDir, QrFileName(rec.certId, i));
      && r.verificationUrl.Some?
      && (var u := r.verificationUrl.value;
          && u[|u| - |h| - 7..] == "/?hash=" + h && u[..|u| - |h| - 7] == RStripSlash(cfg.baseUrl)
          && r.qrCodeUrl == (if cfg.addQrUrl then Some(env.qrUrl(u, cfg.qrSize)) else None)
          && (r.qrCodePath.Some? <==> cfg.qrDir != "" && env.downloadOk(env.qrUrl(u, cfg.qrSize), path))
          && (r.qrCodePath.Some? ==> r.qrCodePath.value == if cfg.qrAbsolute then env.absPath(path) else path))
  {
    var u := VerificationUrl(cfg.baseUrl, rec.currentHash);
    UrlEnds(cfg.baseUrl, rec.currentHash);
    assert Enrich(rec, i, cfg, env).verificationUrl == Some(u);
  }

  lemma {:induction false} UrlEnds(base: string, h: string)
    ensures var u := VerificationUrl(base, h);
      u[|u| - |h| - 7..] == "/?hash=" + h && u[..|u| - |h| - 7] == RStripSlash(base)
  {
    var u := VerificationUrl(base, h);
    assert u[|u| - |h| - 7..] == u[|u| - |h| - 7..|u| - |h|] + u[|u| - |h|..];
  }

  /** Enrichment leaves the hashed part of every record alone. */
  lemma {:induction false} CoreEnrichAll(chain: seq<CertRecord>, cfg: Config, env: Env)
    ensures Core(EnrichAll(chain, cfg, env)) == Core(chain)
  {
  }

  /** The records of a valid chain carry no enrichment key. */
  lemma {:induction false} ChainCore(out: seq<CertRecord>, fs: seq<Fields>, env: Env)
    requires LinkedChain(out, fs, env)
    ensures Core(out) == out
  {
    forall i | 0 <= i < |out| ensures Core(out)[i] == out[i] {
      assert RecordOf(out[i], fs[i], env);
    }
  }

  // ---------------------------------------------------------------------------
  // Properties of a build

  /** Lines 69-77: a missing required column is reported first, naming the missing
      columns; no data rows is reported next. */
  lemma {:induction false} BuildChecksFirst(header: seq<string>, rows: seq<Row>, cfg: Config, env: Env)
    ensures var b := Build(header, rows, cfg, env);
      && ((b.Err? && b.error.MissingColumns?) <==> exists c :: c in REQUIRED_COLUMNS && c !in header)
      && (b.Err? && b.error.MissingColumns? ==> b.error.columns == MissingColumnsOf(header))
      && (b == Err(NoDataRows) <==> (forall c :: c in REQUIRED_COLUMNS ==> c in header) && |rows| == 0)
  {
    var m := MissingColumnsOf(header);
    if |m| > 0 {
      assert m[0] in m;
      BuildMissing(header, rows, cfg, env);
    } else {
      NoneMissingExactly(header);
      BuildPastColumns(header, rows, cfg, env);
    }
  }

  lemma {:induction false} BuildMissing(header: seq<string>, rows: seq<Row>, cfg: Config, env: Env)
    requires |MissingColumnsOf(header)| > 0
    ensures Build(header, rows, cfg, env) == Err(MissingColumns(MissingColumnsOf(header)))
  {
  }

  lemma {:induction false} BuildPastColumns(header: seq<string>, rows: seq<Row>, cfg: Config, env: Env)
    requires |MissingColumnsOf(header)| == 0
    ensures var b := Build(header, rows, cfg, env);
      && !(b.Err? && b.error.MissingColumns?)
      && (b == Err(NoDataRows) <==> |rows| == 0)
  {
    if |rows| > 0 {
      var l := LinkRows(RowsFields(rows), env);
      if l.Err? {
        assert Build(header, rows, cfg, env) == Err(l.error);
      } else {
        assert Build(header, rows, cfg, env).Ok?;
      }
    }
  }

  lemma {:induction false} NoneMissingExactly(header: seq<string>)
    requires |MissingColumnsOf(header)| == 0
    ensures forall c :: c in REQUIRED_COLUMNS ==> c in header
  {
    var m := MissingColumnsOf(header);
    assert forall c :: c in REQUIRED_COLUMNS && c !in header ==> c in m;
  }

  /** Soundness of a build: its records, without their enrichment keys, are a valid chain
      over its rows; the records are those enriched; the columns and the index are the
      ones derived from them. */
  lemma {:induction false} BuildSound(header: seq<string>, rows: seq<Row>, cfg: Config, env: Env)
    requires Build(header, rows, cfg, env).Ok?
    ensures var o := Build(header, rows, cfg, env).value;
      && |rows| > 0 && LinkedChain(Core(o.records), RowsFields(rows), env)
      && o.records == EnrichAll(Core(o.records), cfg, env)
      && o.columns == OutputColumns(cfg) && o.index == HashIndex(o.records)
  {
    BuildValue(header, rows, cfg, env);
    SoundRecords(RowsFields(rows), cfg, env);
  }

  /** A successful build is the enriched result of a successful loop. */
  lemma {:induction false} BuildValue(header: seq<string>, rows: seq<Row>, cfg: Config, env: Env)
    requires Build(header, rows, cfg, env).Ok?
    ensures var l := LinkRows(RowsFields(rows), env);
      && |rows| > 0 && l.Ok?
      && Build(header, rows, cfg, env).value
         == ChainOutput(EnrichAll(l.value, cfg, env), OutputColumns(cfg), HashIndex(EnrichAll(l.value, cfg, env)))
  {
  }

  /** The records of a successful loop, enriched, are a valid chain up to enrichment. */
  lemma {:induction false} SoundRecords(fs: seq<Fields>, cfg: Config, env: Env)
    requires LinkRows(fs, env).Ok?
    ensures var out := EnrichAll(LinkRows(fs, env).value, cfg, env);
      LinkedChain(Core(out), fs, env) && out == EnrichAll(Core(out), cfg, env)
  {
    var chain := LinkRows(fs, env).value;
    LinksSound(fs, env);
    ChainCore(chain, fs, env);
    CoreEnrichAll(chain, cfg, env);
  }

  /** Completeness of a build: when the header has every required column and the rows
      admit a valid chain, the build succeeds with that chain. */
  lemma {:induction false} BuildComplete(header: seq<string>, rows: seq<Row>, chain: seq<CertRecord>, cfg: Config, env: Env)
    requires forall c :: c in REQUIRED_COLUMNS ==> c in header
    requires |rows| > 0 && LinkedChain(chain, RowsFields(rows), env)
    ensures Build(header, rows, cfg, env)
      == Ok(ChainOutput(EnrichAll(chain, cfg, env), OutputColumns(cfg), HashIndex(EnrichAll(chain, cfg, env))))
  {
    LinksExactlyChains(RowsFields(rows), chain, env);
    NoneMissing(REQUIRED_COLUMNS, header);
  }

  lemma {:induction false} NoneMissing(cols: seq<string>, header: seq<string>)
    requires forall c :: c in cols ==> c in header
    ensures Missing(cols, header) == []
    decreases |cols|
  {
    if cols != [] {
      assert cols[0] in cols;
      NoneMissing(cols[1..], header);
    }
  }

  /** What a valid chain over some rows says about each record in terms of the cells of its
      row: the first previous hash, the normalised fields and the hash over them. */
  lemma {:induction false} ChainOverRows(out: seq<CertRecord>, rows: seq<Row>, env: Env)
    requires LinkedChain(out, RowsFields(rows), env)
    ensures |out| > 0 ==>
      var raw := Trim(Get(rows[0], "PreviousHash"));
      out[0].previousHash == (if |raw| > 0 then Lower(raw) else GENESIS_HASH)
    ensures forall i :: 0 <= i < |out| ==>
      && out[i].certId == Trim(Get(rows[i], "CertID"))
      && out[i].name == Trim(Get(rows[i], "RecipientName"))
      && out[i].title == Trim(Get(rows[i], "CourseTitle"))
      && NormalizeDate(Get(rows[i], "DateIssued")) == Ok(out[i].dateIssued)
      && out[i].currentHash
         == env.hash(ConcatFields(out[i].certId, out[i].name, out[i].title, out[i].dateIssued, out[i].previousHash))
  {
    var fs := RowsFields(rows);
    GenesisLower();
    forall i | 0 <= i < |out|
      ensures && out[i].certId == Trim(Get(rows[i], "CertID"))
              && out[i].name == Trim(Get(rows[i], "RecipientName"))
              && out[i].title == Trim(Get(rows[i], "CourseTitle"))
              && NormalizeDate(Get(rows[i], "DateIssued")) == Ok(out[i].dateIssued)
              && out[i].currentHash
                 == env.hash(ConcatFields(out[i].certId, out[i].name, out[i].title, out[i].dateIssued, out[i].previousHash))
    {
      RowsFieldsAt(rows, i);
      assert RecordOf(out[i], fs[i], env);
    }
    if |out| > 0 {
      RowsFieldsAt(rows, 0);
    }
  }

  /** The genesis hash is 64 `'0'` characters and survives `.lower()`. */
  lemma {:induction false} GenesisLower()
    ensures |GENESIS_HASH| == 64 && (forall k :: 0 <= k < 64 ==> GENESIS_HASH[k] == '0')
    ensures Lower(GENESIS_HASH) == GENESIS_HASH
  {
    assert IsLowerHex64(GENESIS_HASH);
    DigestLowered(GENESIS_HASH);
  }

  /** Line 160 over records with distinct hashes: one entry per record, each hash mapped
      to its position. */
  lemma {:induction false} IndexPositions(rs: seq<CertRecord>)
    requires forall i, j :: 0 <= i < j < |rs| ==> rs[i].currentHash != rs[j].currentHash
    ensures |HashIndex(rs)| == |rs|
    ensures forall i :: 0 <= i < |rs| ==> rs[i].currentHash in HashIndex(rs) && HashIndex(rs)[rs[i].currentHash] == i
    decreases |rs|
  {
    if |rs| > 0 {
      var n := |rs|;
      var p := rs[..n - 1];
      IndexPositions(p);
      var h := rs[n - 1].currentHash;
      forall i | 0 <= i < |p| ensures p[i].currentHash != h {
        assert rs[i] == p[i] && rs[i].currentHash != rs[n - 1].currentHash;
      }
      NotInHashSet(p, h);
      var m := HashIndex(rs);
      assert m == HashIndex(p)[h := n - 1];
      forall i | 0 <= i < n ensures rs[i].currentHash in m && m[rs[i].currentHash] == i {
        if i < n - 1 {
          assert rs[i] == p[i] && p[i].currentHash != h;
        }
      }
    }
  }

  /** After a successful build of N rows the index has N entries and maps each CurrentHash
      to the 0-based position of its record. */
  lemma {:induction false} BuildIndex(header: seq<string>, rows: seq<Row>, cfg: Config, env: Env)
    requires Build(header, rows, cfg, env).Ok?
    ensures var o := Build(header, rows, cfg, env).value;
      && |o.index| == |rows|
      && forall i :: 0 <= i < |rows| ==> o.records[i].currentHash in o.index && o.index[o.records[i].currentHash] == i
  {
    BuildValue(header, rows, cfg, env);
    var fs := RowsFields(rows);
    var chain := LinkRows(fs, env).value;
    LinksSound(fs, env);
    EnrichAllHashes(chain, cfg, env);
    IndexPositions(EnrichAll(chain, cfg, env));
  }

  lemma {:induction false} EnrichAllHashes(chain: seq<CertRecord>, cfg: Config, env: Env)
    ensures var out := EnrichAll(chain, cfg, env);
      forall i :: 0 <= i < |chain| ==> out[i].currentHash == chain[i].currentHash
  {
  }

  /** Lines 88-92 end to end: whatever the PreviousHash cell of a row after the first
      holds, the build is the same. */
  lemma {:induction false} BuildIgnoresLaterPrevious(header: seq<string>, rows: seq<Row>, k: nat, v: string, cfg: Config, env: Env)
    requires 0 < k < |rows|
    ensures Build(header, rows[k := rows[k]["PreviousHash" := v]], cfg, env) == Build(header, rows, cfg, env)
  {
    var rows2 := rows[k := rows[k]["PreviousHash" := v]];
    RowsFieldsIgnorePrevious(rows, k, v);
    LinkRowsAgree(RowsFields(rows), RowsFields(rows2), env);
    BuildSameLinks(header, rows, rows2, cfg, env);
  }

  lemma {:induction false} RowFieldIgnoresPrevious(row: Row, v: string)
    ensures RowFields(row["PreviousHash" := v]) == RowFields(row).(previousHash := Trim(v))
  {
    var row2 := row["PreviousHash" := v];
    assert Get(row2, "CertID") == Get(row, "CertID");
    assert Get(row2, "RecipientName") == Get(row, "RecipientName");
    assert Get(row2, "CourseTitle") == Get(row, "CourseTitle");
    assert Get(row2, "DateIssued") == Get(row, "DateIssued");
  }

  lemma {:induction false} RowsFieldsIgnorePrevious(rows: seq<Row>, k: nat, v: string)
    requires 0 < k < |rows|
    ensures var fs := RowsFields(rows);
      var gs := RowsFields(rows[k := rows[k]["PreviousHash" := v]]);
      && |fs| == |gs| && fs[0] == gs[0]
      && forall i :: 0 < i < |fs| ==> gs[i] == fs[i].(previousHash := gs[i].previousHash)
  {
    var rows2 := rows[k := rows[k]["PreviousHash" := v]];
    var fs := RowsFields(rows);
    var gs := RowsFields(rows2);
    forall i | 0 <= i < |rows| ensures gs[i] == fs[i].(previousHash := gs[i].previousHash) {
      RowsFieldsAt(rows, i);
      RowsFieldsAt(rows2, i);
      if i == k {
        RowFieldIgnoresPrevious(rows[k], v);
      }
    }
    RowsFieldsAt(rows, 0);
    RowsFieldsAt(rows2, 0);
  }

  /** Builds over the same header whose loops agree are the same. */
  lemma {:induction false} BuildSameLinks(header: seq<string>, rows: seq<Row>, rows2: seq<Row>, cfg: Config, env: Env)
    requires |rows| == |rows2| && LinkRows(RowsFields(rows), env) == LinkRows(RowsFields(rows2), env)
    ensures Build(header, rows, cfg, env) == Build(header, rows2, cfg, env)
  {
  }

  /** The options add keys and columns only: whether a build succeeds, the error it
      raises and the hashed part of its records do not depend on them. */
  lemma {:induction false} BuildIgnoresOptions(header: seq<string>, rows: seq<Row>, cfg1: Config, cfg2: Config, env: Env)
    ensures Build(header, rows, cfg1, env).Ok? <==> Build(header, rows, cfg2, env).Ok?
    ensures Build(header, rows, cfg1, env).Err? ==> Build(header, rows, cfg1, env) == Build(header, rows, cfg2, env)
    ensures Build(header, rows, cfg1, env).Ok? ==>
      Core(Build(header, rows, cfg1, env).value.records) == Core(Build(header, rows, cfg2, env).value.records)
  {
    if Build(header, rows, cfg1, env).Ok? {
      var chain := LinkRows(RowsFields(rows), env).value;
      CoreEnrichAll(chain, cfg1, env);
      CoreEnrichAll(chain, cfg2, env);
    }
  }
}
