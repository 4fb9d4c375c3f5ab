/** The RTF mail merge of scripts/export_merge_rtf.py: `rtf_escape`, `apply_template`
    and the page join of `main`. */
module RtfMerge {
  import opened Wrappers
  import opened Text

  // ---------------------------------------------------------------------------
  // rtf_escape

  /** The characters RTF reserves: backslash and the two braces. */
  predicate IsRtfSpecial(c: char) {
    c == '\\' || c == '{' || c == '}'
  }

  /** One character escaped: a reserved character gains a leading backslash, any other
      character is copied. */
  function EscapeChar(c: char): string {
    if IsRtfSpecial(c) then ['\\', c] else [c]
  }

  /** The reference escape: every character escaped on its own, in order. */
  function EscapeEach(s: string): string
    decreases |s|
  {
    if |s| == 0 then [] else EscapeChar(s[0]) + EscapeEach(s[1..])
  }

  /** The three chained `str.replace` calls of line 14, backslashes first. */
  function EscapeBraces(s: string): string {
    Replace(Replace(Replace(s, "\\", "\\\\"), "{", "\\{"), "}", "\\}")
  }

  /** `rtf_escape`: `None` becomes the empty string, a string is escaped. The escape
      loses nothing (unescaping gives the text back) and adds exactly one character per
      reserved character. */
  function RtfEscape(text: Option<string>): (r: string)
    ensures Unescape(r) == OrEmpty(text)
    ensures |r| == |OrEmpty(text)| + CountSpecial(OrEmpty(text))
  {
    match text
    case None => ""
    case Some(s) =>
      EscapeBracesEach(s);
      UnescapeEach(s);
      EscapeEachLength(s);
      EscapeBraces(s)
  }

  /** Line 12-13: `rtf_escape(None)` and `rtf_escape("")` are both the empty string. */
  lemma {:induction false} RtfEscapeBlank()
    ensures RtfEscape(None) == "" && RtfEscape(Some("")) == ""
  {
    EscapeBracesEach("");
  }

  /** Because backslashes are replaced first, the chained replaces escape each character
      on its own: a backslash the first replace adds is never escaped again. */
  lemma {:induction false} EscapeBracesEach(s: string)
    ensures EscapeBraces(s) == EscapeEach(s)
  {
    var a := ReplaceChar(s, '\\', "\\\\");
    var b := ReplaceChar(a, '{', "\\{");
    ReplaceSingle(s, '\\', "\\\\");
    ReplaceSingle(a, '{', "\\{");
    ReplaceSingle(b, '}', "\\}");
    ReplacesEach(s);
  }

  /** The three one-character substitutions, in the order of line 14. */
  function Substitutions(s: string): string {
    ReplaceChar(ReplaceChar(ReplaceChar(s, '\\', "\\\\"), '{', "\\{"), '}', "\\}")
  }

  lemma {:induction false} ReplacesEach(s: string)
    ensures Substitutions(s) == EscapeEach(s)
    decreases |s|
  {
    if |s| > 0 {
      var c := s[0];
      var a := if c == '\\' then "\\\\" else [c];
      var b := if c == '{' then "\\{" else a;
      ReplaceCharAppend(a, ReplaceChar(s[1..], '\\', "\\\\"), '{', "\\{");
      ReplaceCharAppend(ReplaceChar(a, '{', "\\{"), ReplaceChar(ReplaceChar(s[1..], '\\', "\\\\"), '{', "\\{"), '}', "\\}");
      SubstitutionsChar(c);
      ReplacesEach(s[1..]);
    }
  }

  lemma {:induction false} SubstitutionsChar(c: char)
    ensures Substitutions([c]) == EscapeChar(c)
  {
    assert [c][1..] == [];
    var a := if c == '\\' then "\\\\" else [c];
    assert ReplaceChar([c], '\\', "\\\\") == a;
    if c == '\\' {
      assert ReplaceChar(a, '{', "\\{") == a by {
        assert a[1..] == [c] && [c][1..] == [];
      }
      assert ReplaceChar(a, '}', "\\}") == a by {
        assert a[1..] == [c];
      }
    } else if c == '{' {
      var b := "\\{";
      assert ReplaceChar(a, '{', "\\{") == b;
      assert ReplaceChar(b, '}', "\\}") == b by {
        assert b[1..] == [c];
      }
    } else {
      assert ReplaceChar(a, '{', "\\{") == a;
    }
  }

  /** The number of reserved characters of `s`. */
  function CountSpecial(s: string): nat
    decreases |s|
  {
    if |s| == 0 then 0 else (if IsRtfSpecial(s[0]) then 1 else 0) + CountSpecial(s[1..])
  }

  lemma {:induction false} EscapeEachLength(s: string)
    ensures |EscapeEach(s)| == |s| + CountSpecial(s)
    decreases |s|
  {
    if |s| > 0 {
      EscapeEachLength(s[1..]);
    }
  }

  /** Reading an escaped string back: a backslash takes the next character literally. */
  function Unescape(s: string): string
    decreases |s|
  {
    if |s| == 0 then []
    else if s[0] == '\\' && |s| >= 2 then [s[1]] + Unescape(s[2..])
    else [s[0]] + Unescape(s[1..])
  }

  lemma {:induction false} UnescapeEach(s: string)
    ensures Unescape(EscapeEach(s)) == s
    decreases |s|
  {
    if |s| > 0 {
      var e := EscapeChar(s[0]);
      var rest := EscapeEach(s[1..]);
      var t := e + rest;
      if IsRtfSpecial(s[0]) {
        assert t[0] == '\\' && t[1] == s[0] && t[2..] == rest;
      } else {
        assert t[0] == s[0] && t[1..] == rest;
      }
      UnescapeEach(s[1..]);
      assert s == [s[0]] + s[1..];
    }
  }

  // ---------------------------------------------------------------------------
  // apply_template

  /** A CSV record as `csv.DictReader` yields it; a cell the row is too short for is
      `None`. */
  type Record = map<string, Option<string>>

  /** `rec.get(key, '')`. */
  function Lookup(rec: Record, key: string): Option<string> {
    if key in rec then rec[key] else Some("")
  }

  /** `value or ''`. */
  function OrEmpty(v: Option<string>): string {
    match v
    case None => ""
    case Some(s) => s
  }

  /** The values lines 19-25 read from a record: five escaped cells, and the raw
      VerificationURL and QRCodePath. */
  datatype TemplateValues = TemplateValues(
    name: string, title: string, dateIssued: string, certId: string, currentHash: string,
    verificationUrl: string, qrPath: string)

  function Values(rec: Record): TemplateValues {
    TemplateValues(
      RtfEscape(Lookup(rec, "RecipientName")), RtfEscape(Lookup(rec, "CourseTitle")),
      RtfEscape(Lookup(rec, "DateIssued")), RtfEscape(Lookup(rec, "CertID")),
      RtfEscape(Lookup(rec, "CurrentHash")),
      OrEmpty(Lookup(rec, "VerificationURL")), OrEmpty(Lookup(rec, "QRCodePath")))
  }

  /** `OrEmpty(row.get(key))`: the raw cell, blank when missing. */
  function Cell(rec: Record, key: string): string {
    OrEmpty(Lookup(rec, key))
  }

  /** The field instruction of line 38 that receives the verification URL. */
  const HYPERLINK_FIELD: string := "HYPERLINK \"{ MERGEFIELD VerificationURL }\""

  /** The field instruction of line 41 that receives the QR image path. */
  const PICTURE_FIELD: string := "INCLUDEPICTURE \"{ MERGEFIELD QRCodePath }\"" + " \\d"

  /** The six merge fields whose `\fldrslt` placeholders lines 29-34 fill, in that order. */
  const RESULT_FIELDS: seq<string> :=
    ["RecipientName", "CourseTitle", "DateIssued", "CertID", "CurrentHash", "VerificationURL"]

  /** A field result as the template writes it: the `\fldrslt` control word, a space and
      the text shown. */
  function FieldResult(x: string): string {
    "\\fldrslt " + x
  }

  /** What lines 29-34 put after `\fldrslt `, field by field. */
  function ResultTexts(v: TemplateValues): seq<string> {
    [v.name, v.title, v.dateIssued, v.certId, v.currentHash, EscapeBraces(v.verificationUrl)]
  }

  /** One `out.replace` per field, in order: each field's placeholder becomes its text. */
  function FillResults(t: string, fields: seq<string>, texts: seq<string>): string
    requires |fields| == |texts|
    decreases |fields|
  {
    if |fields| == 0 then t
    else FillResults(Replace(t, FieldResult(fields[0]), FieldResult(texts[0])), fields[1..], texts[1..])
  }

  /** Lines 29-34: the six `\fldrslt` placeholders replaced by their values. */
  function ResultPasses(t: string, v: TemplateValues): string {
    FillResults(t, RESULT_FIELDS, ResultTexts(v))
  }

  /** The HYPERLINK instruction line 38 writes for a URL. */
  function LinkTarget(url: string): string {
    "HYPERLINK \"" + EscapeBraces(url) + "\""
  }

  /** The INCLUDEPICTURE instruction line 41 writes for a path. */
  function PictureTarget(path: string): string {
    "INCLUDEPICTURE \"" + EscapeBraces(path) + "\" \\d"
  }

  /** Lines 37-38: the HYPERLINK target, replaced only when there is a URL. */
  function LinkPass(t: string, url: string): string {
    if url != "" then Replace(t, HYPERLINK_FIELD, LinkTarget(url)) else t
  }

  /** Lines 40-41: the INCLUDEPICTURE path, replaced only when there is a path. */
  function PicturePass(t: string, path: string): string {
    if path != "" then Replace(t, PICTURE_FIELD, PictureTarget(path)) else t
  }

  /** `apply_template`. A template holding none of the placeholders is returned
      unchanged. */
  function ApplyTemplate(t: string, rec: Record): (r: string)
    ensures NoResultPlaceholder(t) && !Occurs(HYPERLINK_FIELD, t) && !Occurs(PICTURE_FIELD, t) ==> r == t
  {
    var v := Values(rec);
    NoPlaceholderKept(t, v);
    PicturePass(LinkPass(ResultPasses(t, v), v.verificationUrl), v.qrPath)
  }

  /** `t` holds none of the six `\fldrslt` placeholders of lines 29-34. */
  predicate NoResultPlaceholder(t: string) {
    forall j :: 0 <= j < |RESULT_FIELDS| ==> !Occurs(FieldResult(RESULT_FIELDS[j]), t)
  }

  /** The `\fldrslt` passes leave a template without placeholders alone. */
  lemma {:induction false} NoPlaceholderKept(t: string, v: TemplateValues)
    ensures NoResultPlaceholder(t) ==> ResultPasses(t, v) == t
  {
    if NoResultPlaceholder(t) {
      FillAbsent(t, RESULT_FIELDS, ResultTexts(v));
    }
  }

  lemma {:induction false} FillAbsent(t: string, fields: seq<string>, texts: seq<string>)
    requires |fields| == |texts|
    requires forall j :: 0 <= j < |fields| ==> !Occurs(FieldResult(fields[j]), t)
    ensures FillResults(t, fields, texts) == t
    decreases |fields|
  {
    if |fields| > 0 {
      FillAbsent(t, fields[1..], texts[1..]);
    }
  }

  /** Lines 19-25: a cell the record lacks, or holds as `None`, is filled in as the empty
      string. */
  lemma {:induction false} MissingFieldIsBlank(rec: Record)
    ensures var v := Values(rec);
      && (Lookup(rec, "RecipientName") in {None, Some("")} ==> v.name == "")
      && (Lookup(rec, "CourseTitle") in {None, Some("")} ==> v.title == "")
      && (Lookup(rec, "DateIssued") in {None, Some("")} ==> v.dateIssued == "")
      && (Lookup(rec, "CertID") in {None, Some("")} ==> v.certId == "")
      && (Lookup(rec, "CurrentHash") in {None, Some("")} ==> v.currentHash == "")
      && (Lookup(rec, "VerificationURL") in {None, Some("")} ==> v.verificationUrl == "")
      && (Lookup(rec, "QRCodePath") in {None, Some("")} ==> v.qrPath == "")
  {
    RtfEscapeBlank();
  }

  /** A missing cell and an empty one fill a template alike. */
  lemma {:induction false} MissingLikeEmpty(t: string, rec: Record, key: string)
    requires key !in rec
    ensures ApplyTemplate(t, rec) == ApplyTemplate(t, rec[key := Some("")])
  {
    var rec2 := rec[key := Some("")];
    assert forall k :: Lookup(rec, k) == Lookup(rec2, k);
    assert Values(rec) == Values(rec2);
  }

  // ---------------------------------------------------------------------------
  // What apply_template does to the instructions and placeholders of a template

  /** Lines 37-38: a record without a VerificationURL leaves every HYPERLINK instruction
      exactly as the template has it, wherever it stands. */
  lemma {:induction false} HyperlinkKeptWithoutUrl(a: string, c: string, rec: Record)
    requires Cell(rec, "VerificationURL") == ""
    ensures ApplyTemplate(a + HYPERLINK_FIELD + c, rec)
      == ApplyTemplate(a, rec) + HYPERLINK_FIELD + ApplyTemplate(c, rec)
  {
    ResultsApartLink();
    LinkApartPicture();
    ApplyKeeps(a, HYPERLINK_FIELD, c, rec);
  }

  /** Lines 40-41: a record without a QRCodePath leaves every INCLUDEPICTURE instruction
      exactly as the template has it, wherever it stands. */
  lemma {:induction false} PictureKeptWithoutPath(a: string, c: string, rec: Record)
    requires Cell(rec, "QRCodePath") == ""
    ensures ApplyTemplate(a + PICTURE_FIELD + c, rec)
      == ApplyTemplate(a, rec) + PICTURE_FIELD + ApplyTemplate(c, rec)
  {
    ResultsApartPicture();
    LinkApartPicture();
    ApplyKeeps(a, PICTURE_FIELD, c, rec);
  }

  /** Lines 37-38: with a VerificationURL, a HYPERLINK instruction closed by its field's
      brace becomes the escaped URL in quotes, and the rest of the template is filled on
      either side of it. */
  lemma {:induction false} FillsHyperlink(a: string, c: string, rec: Record)
    requires Cell(rec, "VerificationURL") != ""
    ensures ApplyTemplate(a + (HYPERLINK_FIELD + "}") + c, rec)
      == ApplyTemplate(a, rec) + (LinkTarget(Cell(rec, "VerificationURL")) + "}") + ApplyTemplate(c, rec)
  {
    var v := Values(rec);
    var x := HYPERLINK_FIELD + "}";
    var y := LinkTarget(v.verificationUrl) + "}";
    ResultsApartLink();
    FillKeeps(a, x, c, RESULT_FIELDS, ResultTexts(v));
    var a1 := ResultPasses(a, v);
    var c1 := ResultPasses(c, v);
    LinkSelf();
    HitHere(a1, c1, HYPERLINK_FIELD, LinkTarget(v.verificationUrl));
    PictureApartTarget(v.verificationUrl);
    PictureKeeps(LinkPass(a1, v.verificationUrl), y, LinkPass(c1, v.verificationUrl), v.qrPath);
  }

  /** Lines 40-41: with a QRCodePath, an INCLUDEPICTURE instruction becomes the escaped
      path in quotes, and the rest of the template is filled on either side of it. */
  lemma {:induction false} FillsPicture(a: string, c: string, rec: Record)
    requires Cell(rec, "QRCodePath") != ""
    ensures ApplyTemplate(a + PICTURE_FIELD + c, rec)
      == ApplyTemplate(a, rec) + PictureTarget(Cell(rec, "QRCodePath")) + ApplyTemplate(c, rec)
  {
    var v := Values(rec);
    ResultsApartPicture();
    LinkApartPicture();
    FillKeeps(a, PICTURE_FIELD, c, RESULT_FIELDS, ResultTexts(v));
    var a1 := ResultPasses(a, v);
    var c1 := ResultPasses(c, v);
    LinkKeeps(a1, PICTURE_FIELD, c1, v.verificationUrl);
    PictureSelf();
    ReplaceAt(LinkPass(a1, v.verificationUrl), LinkPass(c1, v.verificationUrl), PICTURE_FIELD,
      PictureTarget(v.qrPath));
  }

  /** Lines 29-34: the `\fldrslt` placeholder of field `i`, closed by its group's brace,
      shows the record's value for that field, and the rest of the template is filled on
      either side of it. The value is taken as written when it holds no `\`, `{` or `}`,
      and it must not begin with a field name that a later pass looks for: that pass
      would rewrite it again. */
  lemma {:induction false} FillsResult(a: string, c: string, rec: Record, i: nat)
    requires i < |RESULT_FIELDS| && Plain(Cell(rec, RESULT_FIELDS[i]))
    requires forall j :: i < j < |RESULT_FIELDS| ==> !(RESULT_FIELDS[j] <= Cell(rec, RESULT_FIELDS[i]))
    ensures ApplyTemplate(a + (FieldResult(RESULT_FIELDS[i]) + "}") + c, rec)
      == ApplyTemplate(a, rec) + (FieldResult(Cell(rec, RESULT_FIELDS[i])) + "}") + ApplyTemplate(c, rec)
  {
    var v := Values(rec);
    var s := Cell(rec, RESULT_FIELDS[i]);
    var y := FieldResult(s) + "}";
    CellText(rec, i);
    NamesApart();
    NamesSelf();
    LaterNamesApart(s, i);
    FillHits(a, c, RESULT_FIELDS, ResultTexts(v), i);
    var a1 := ResultPasses(a, v);
    var c1 := ResultPasses(c, v);
    PatternsApartResult(s);
    LinkKeeps(a1, y, c1, v.verificationUrl);
    PictureKeeps(LinkPass(a1, v.verificationUrl), y, LinkPass(c1, v.verificationUrl), v.qrPath);
  }

  /** Line 29 in particular: the recipient's name appears in the placeholder. */
  lemma {:induction false} FillsRecipientName(a: string, c: string, rec: Record)
    requires Plain(Cell(rec, "RecipientName"))
    requires forall j :: 0 < j < |RESULT_FIELDS| ==> !(RESULT_FIELDS[j] <= Cell(rec, "RecipientName"))
    ensures ApplyTemplate(a + (FieldResult("RecipientName") + "}") + c, rec)
      == ApplyTemplate(a, rec) + (FieldResult(Cell(rec, "RecipientName")) + "}") + ApplyTemplate(c, rec)
  {
    FillsResult(a, c, rec, 0);
  }

  // ---------------------------------------------------------------------------
  // How the passes act on a template cut in three

  /** The six passes leave alone a piece no placeholder can overlap, and fill the text on
      either side of it on its own. */
  lemma {:induction false} FillKeeps(a: string, x: string, c: string, fields: seq<string>, texts: seq<string>)
    requires |fields| == |texts|
    requires forall j :: 0 <= j < |fields| ==> Apart(FieldResult(fields[j]), x)
    ensures FillResults(a + x + c, fields, texts)
      == FillResults(a, fields, texts) + x + FillResults(c, fields, texts)
    decreases |fields|
  {
    if |fields| > 0 {
      var p := FieldResult(fields[0]);
      var r := FieldResult(texts[0]);
      ReplaceKeeps(a, x, c, p, r);
      FillKeeps(Replace(a, p, r), x, Replace(c, p, r), fields[1..], texts[1..]);
    }
  }

  /** The passes turn the placeholder of field `i` and its closing brace into the text
      of field `i` and the brace, when no earlier placeholder overlaps the one of field
      `i` and no later one overlaps the text that replaced it. */
  lemma {:induction false} FillHits(a: string, c: string, fields: seq<string>, texts: seq<string>, i: nat)
    requires |fields| == |texts| && i < |fields|
    requires forall j :: 0 <= j < i ==> Apart(FieldResult(fields[j]), FieldResult(fields[i]) + "}")
    requires NoOverlapInto(FieldResult(fields[i]), FieldResult(fields[i]))
    requires NoStartWithin(FieldResult(fields[i]), "}")
    requires forall j :: i < j < |fields| ==> Apart(FieldResult(fields[j]), FieldResult(texts[i]) + "}")
    ensures FillResults(a + (FieldResult(fields[i]) + "}") + c, fields, texts)
      == FillResults(a, fields, texts) + (FieldResult(texts[i]) + "}") + FillResults(c, fields, texts)
    decreases i
  {
    var p := FieldResult(fields[0]);
    var r := FieldResult(texts[0]);
    if i == 0 {
      HitHere(a, c, p, r);
      FillKeeps(Replace(a, p, r), r + "}", Replace(c, p, r), fields[1..], texts[1..]);
    } else {
      var fs := fields[1..];
      var ts := texts[1..];
      assert fs[i - 1] == fields[i] && ts[i - 1] == texts[i];
      assert forall j :: 0 <= j < i - 1 ==> Apart(FieldResult(fs[j]), FieldResult(fs[i - 1]) + "}") by {
        assert forall j :: 0 <= j < i - 1 ==> fs[j] == fields[j + 1];
      }
      assert forall j :: i - 1 < j < |fs| ==> Apart(FieldResult(fs[j]), FieldResult(ts[i - 1]) + "}") by {
        assert forall j :: i - 1 < j < |fs| ==> fs[j] == fields[j + 1];
      }
      ReplaceKeeps(a, FieldResult(fields[i]) + "}", c, p, r);
      FillHits(Replace(a, p, r), Replace(c, p, r), fs, ts, i - 1);
    }
  }

  /** One replace of a pattern followed by a brace. */
  lemma {:induction false} HitHere(a: string, c: string, pat: string, rep: string)
    requires |pat| > 0 && NoOverlapInto(pat, pat) && NoStartWithin(pat, "}")
    ensures Replace(a + (pat + "}") + c, pat, rep)
      == Replace(a, pat, rep) + (rep + "}") + Replace(c, pat, rep)
  {
    assert a + (pat + "}") + c == a + pat + ("}" + c);
    ReplaceAt(a, "}" + c, pat, rep);
    ReplaceSkip("}", c, pat, rep);
    assert Replace(a, pat, rep) + rep + ("}" + Replace(c, pat, rep))
      == Replace(a, pat, rep) + (rep + "}") + Replace(c, pat, rep);
  }

  lemma {:induction false} LinkKeeps(a: string, x: string, c: string, url: string)
    requires url == "" || Apart(HYPERLINK_FIELD, x)
    ensures LinkPass(a + x + c, url) == LinkPass(a, url) + x + LinkPass(c, url)
  {
    if url != "" {
      ReplaceKeeps(a, x, c, HYPERLINK_FIELD, LinkTarget(url));
    }
  }

  lemma {:induction false} PictureKeeps(a: string, x: string, c: string, path: string)
    requires path == "" || Apart(PICTURE_FIELD, x)
    ensures PicturePass(a + x + c, path) == PicturePass(a, path) + x + PicturePass(c, path)
  {
    if path != "" {
      ReplaceKeeps(a, x, c, PICTURE_FIELD, PictureTarget(path));
    }
  }

  /** A piece that none of the record's passes can overlap. */
  predicate Inert(x: string, rec: Record) {
    && (forall j :: 0 <= j < |RESULT_FIELDS| ==> Apart(FieldResult(RESULT_FIELDS[j]), x))
    && (Cell(rec, "VerificationURL") == "" || Apart(HYPERLINK_FIELD, x))
    && (Cell(rec, "QRCodePath") == "" || Apart(PICTURE_FIELD, x))
  }

  /** `apply_template` leaves an inert piece alone and fills either side of it on its own. */
  lemma {:induction false} ApplyKeeps(a: string, x: string, c: string, rec: Record)
    requires Inert(x, rec)
    ensures ApplyTemplate(a + x + c, rec) == ApplyTemplate(a, rec) + x + ApplyTemplate(c, rec)
  {
    var v := Values(rec);
    FillKeeps(a, x, c, RESULT_FIELDS, ResultTexts(v));
    var a1 := ResultPasses(a, v);
    var c1 := ResultPasses(c, v);
    LinkKeeps(a1, x, c1, v.verificationUrl);
    PictureKeeps(LinkPass(a1, v.verificationUrl), x, LinkPass(c1, v.verificationUrl), v.qrPath);
  }

  /** A plain value is its own escape, so it is what the passes put in the template. */
  lemma {:induction false} CellText(rec: Record, i: nat)
    requires i < |RESULT_FIELDS| && Plain(Cell(rec, RESULT_FIELDS[i]))
    ensures ResultTexts(Values(rec))[i] == Cell(rec, RESULT_FIELDS[i])
  {
    PlainEscapes(Cell(rec, RESULT_FIELDS[i]));
  }

  // ---------------------------------------------------------------------------
  // Which patterns can overlap which pieces

  /** No `\`, `{` or `}`. */
  predicate Plain(s: string) {
    forall k :: 0 <= k < |s| ==> !IsRtfSpecial(s[k])
  }

  /** Every `{` of `x` is escaped by the backslash before it. */
  predicate BracesEscaped(x: string) {
    forall k :: 0 <= k < |x| && x[k] == '{' ==> 0 < k && x[k - 1] == '\\'
  }

  /** Every `c` of `s` is followed by a character other than `d`. */
  predicate NoPair(s: string, c: char, d: char) {
    forall k :: 0 <= k < |s| && s[k] == c ==> k + 1 < |s| && s[k + 1] != d
  }

  /** A field name: plain, with no `HY` (the start of the HYPERLINK instruction) and no
      `IN` (the start of the INCLUDEPICTURE instruction), not even cut off at its end. */
  predicate FieldName(f: string) {
    Plain(f) && NoPair(f, 'H', 'Y') && NoPair(f, 'I', 'N')
  }

  lemma {:induction false} PlainEscapes(s: string)
    requires Plain(s)
    ensures EscapeBraces(s) == s && RtfEscape(Some(s)) == s
  {
    EscapeBracesEach(s);
    PlainEscapeEach(s);
  }

  lemma {:induction false} PlainEscapeEach(s: string)
    requires Plain(s)
    ensures EscapeEach(s) == s
    decreases |s|
  {
    if |s| > 0 {
      PlainEscapeEach(s[1..]);
      assert [s[0]] + s[1..] == s;
    }
  }

  lemma {:induction false} EscapedBraces(s: string)
    ensures BracesEscaped(EscapeBraces(s))
  {
    EscapeBracesEach(s);
    EachBracesEscaped(s);
  }

  lemma {:induction false} EachBracesEscaped(s: string)
    ensures BracesEscaped(EscapeEach(s))
    decreases |s|
  {
    if |s| > 0 {
      EachBracesEscaped(s[1..]);
      BracesEscapedAppend(EscapeChar(s[0]), EscapeEach(s[1..]));
    }
  }

  lemma {:induction false} BracesEscapedAppend(a: string, b: string)
    requires BracesEscaped(a) && BracesEscaped(b)
    ensures BracesEscaped(a + b)
  {
    forall k | 0 <= k < |a + b| && (a + b)[k] == '{' ensures 0 < k && (a + b)[k - 1] == '\\' {
      if k >= |a| {
        assert b[k - |a|] == '{';
      }
    }
  }

  lemma {:induction false} OnlyAtAppend(a: string, b: string, ch: char, ps: set<nat>)
    requires OnlyAt(a, ch, ps) && forall k :: 0 <= k < |b| ==> b[k] != ch
    ensures OnlyAt(a + b, ch, ps)
  {
    forall k | 0 <= k < |a + b| && (a + b)[k] == ch ensures k in ps {
    }
  }

  /** What a field result looks like around a plain text `f`. */
  lemma {:induction false} ResultShape(f: string)
    requires Plain(f)
    ensures var r := FieldResult(f);
      && |r| == |f| + 9 && r[0] == '\\' && r[1] == 'f' && OnlyAt(r, '\\', {0})
      && (forall k :: 1 <= k < 9 ==> !('A' <= r[k] <= 'Z'))
      && (forall k :: 9 <= k < |r| ==> r[k] == f[k - 9])
    ensures var y := FieldResult(f) + "}";
      && y[0] == '\\' && y[1] == 'f' && y[|y| - 1] == '}' && OnlyAt(y, '\\', {0}) && BracesEscaped(y)
  {
    var r := FieldResult(f);
    ResultPrefix(f);
    assert OnlyAt(r, '\\', {0});
    OnlyAtAppend(r, "}", '\\', {0});
    forall k | 0 <= k < |r| ensures r[k] != '{' {
      if k >= 9 {
        assert r[k] == f[k - 9];
      }
    }
    assert BracesEscaped(r + "}") by {
      forall k | 0 <= k < |r + "}"| ensures (r + "}")[k] != '{' {
        if k < |r| {
          assert (r + "}")[k] == r[k];
        }
      }
    }
  }

  lemma {:induction false} ResultPrefix(f: string)
    ensures var r := FieldResult(f);
      && |r| == |f| + 9 && r[0] == '\\' && r[1] == 'f'
      && (forall k :: 1 <= k < 9 ==> r[k] != '\\' && r[k] != '{' && !('A' <= r[k] <= 'Z'))
      && (forall k :: 9 <= k < |r| ==> r[k] == f[k - 9])
  {
  }

  /** A constant instruction whose first `{` is unescaped, before any `}`, never starts
      inside a piece that ends in `}` and escapes its braces: from every start, the piece
      runs out of characters at a `}`, or has an escaped brace where the pattern has an
      unescaped one. */
  lemma {:induction false} NoStartBeforeBrace(pat: string, x: string, i: nat, b: nat)
    requires 0 < i < b < |pat| && pat[i] == '{' && pat[i - 1] != '\\' && OnlyAt(pat, '}', {b})
    requires 0 < |x| && x[|x| - 1] == '}' && BracesEscaped(x)
    ensures NoStartWithin(pat, x)
  {
    forall o | 0 <= o < |x| ensures Differ(x[o..], pat) {
      var r := |x| - 1 - o;
      if r <= i {
        DiffersAt(x, o, pat, r);
      } else if x[o + i] != '{' {
        DiffersAt(x, o, pat, i);
      } else {
        DiffersAt(x, o, pat, i - 1);
      }
    }
  }

  /** No tail of `p` begins `y` when the head of `y` occurs in `p` at most at `e`, and
      there the next characters differ. */
  lemma {:induction false} OverlapOnce(p: string, y: string, e: nat)
    requires 1 < |y| && OnlyAt(p, y[0], {e}) && e + 1 < |p| && p[e + 1] != y[1]
    ensures NoOverlapInto(p, y)
  {
    if 1 <= e {
      DiffersAt(p, e, y, 1);
    }
    NoOverlapVia(p, y, {e});
  }

  lemma {:induction false} OverlapNone(p: string, y: string)
    requires 0 < |y| && OnlyAt(p, y[0], {})
    ensures NoOverlapInto(p, y)
  {
    NoOverlapVia(p, y, {});
  }

  /** A field result overlaps no instruction that starts with a capital letter not
      followed, in the field's name, by the instruction's second letter. */
  lemma {:induction false} ResultApart(f: string, p: string, es: set<nat>)
    requires Plain(f) && 2 <= |p| && 'A' <= p[0] <= 'Z' && NoPair(f, p[0], p[1])
    requires OnlyAt(p, '\\', es) && forall e :: e in es ==> e + 1 < |p| && p[e + 1] != 'f'
    ensures Apart(FieldResult(f), p) && Apart(FieldResult(f), p + "}")
  {
    var r := FieldResult(f);
    ResultShape(f);
    forall m | 1 <= m < |r| ensures Differ(r[m..], p) {
      if m < 9 || f[m - 9] != p[0] {
        DiffersAt(r, m, p, 0);
      } else {
        DiffersAt(r, m, p, 1);
      }
    }
    NoOverlapExtend(r, p, "}");
    OnlyAtAppend(p, "}", '\\', es);
    forall e | e in es && 0 <= e < |p| ensures Differ(p[e..], r) && Differ((p + "}")[e..], r) {
      DiffersAt(p, e, r, 1);
      DiffersAt(p + "}", e, r, 1);
    }
    NoStartVia(r, p, es);
    NoStartVia(r, p + "}", es);
  }

  /** A field result overlaps no other field result closed by a brace. */
  lemma {:induction false} ResultApartResult(f: string, s: string)
    requires Plain(f) && Plain(s) && Differ(s + "}", f)
    ensures Apart(FieldResult(f), FieldResult(s) + "}")
  {
    var r := FieldResult(f);
    var y := FieldResult(s) + "}";
    ResultShape(f);
    ResultShape(s);
    NoOverlapVia(r, y, {0});
    var d :| 0 <= d < |s + "}"| && d < |f| && (s + "}")[d] != f[d];
    assert y[9 + d] == (s + "}")[d];
    DiffersAt(y, 0, r, 9 + d);
    assert y[0..] == y;
    NoStartVia(r, y, {0});
  }

  /** When `f` has no `}` and does not begin `s`, then `s` closed by a brace and `f`
      differ somewhere. */
  lemma {:induction false} FirstDiffer(f: string, s: string)
    requires Plain(f) && !(f <= s)
    ensures Differ(s + "}", f)
  {
    var y := s + "}";
    if |s| < |f| && s == f[..|s|] {
      assert y[|s|] != f[|s|];
    } else {
      var n := if |s| < |f| then |s| else |f|;
      assert s[..n] != f[..n];
      var d :| 0 <= d < n && s[..n][d] != f[..n][d];
      assert y[d] == s[d];
    }
  }

  lemma {:induction false} HeadsDiffer(s: string, f: string)
    requires 2 <= |s| && 2 <= |f| && (s[0] != f[0] || s[1] != f[1])
    ensures Differ(s + "}", f)
  {
    if s[0] != f[0] {
      assert (s + "}")[0] != f[0];
    } else {
      assert (s + "}")[1] != f[1];
    }
  }

  /** A pattern overlaps itself nowhere when its first character recurs only at `m` and
      `n`, where the character after it differs from the pattern's second. */
  lemma {:induction false} SelfApart(p: string, m: nat, n: nat)
    requires 1 <= m && 1 <= n && m + 1 < |p| && n + 1 < |p| && OnlyAt(p, p[0], {0, m, n})
    requires p[m + 1] != p[1] && p[n + 1] != p[1]
    ensures NoOverlapInto(p, p)
  {
    DiffersAt(p, m, p, 1);
    DiffersAt(p, n, p, 1);
    NoOverlapVia(p, p, {0, m, n});
  }

  lemma {:induction false} SelfApartAlone(p: string)
    requires 0 < |p| && OnlyAt(p, p[0], {0})
    ensures NoOverlapInto(p, p)
  {
    NoOverlapVia(p, p, {0});
  }

  lemma {:induction false} NotInBrace(p: string)
    requires 0 < |p| && p[0] != '}'
    ensures NoStartWithin(p, "}")
  {
    NoStartVia(p, "}", {});
  }

  /** The two instructions cannot overlap each other. */
  lemma {:induction false} InstructionsApart(x: string, p: string)
    requires 20 < |x| && 2 < |p| && p[0] == 'I' && x[0] != 'I'
    requires OnlyAt(x, 'I', {6, 19}) && x[8] != p[2] && x[20] != p[1]
    requires OnlyAt(p, x[0], {})
    ensures Apart(x, p) && Apart(p, x)
  {
    DiffersAt(x, 6, p, 2);
    DiffersAt(x, 19, p, 1);
    NoOverlapVia(x, p, {6, 19});
    NoStartVia(x, p, {});
    NoOverlapVia(p, x, {});
    NoStartVia(p, x, {6, 19});
  }

  // The characters of the two instructions and of the six field names.

  lemma {:induction false} LinkChars()
    ensures |HYPERLINK_FIELD| == 42 && HYPERLINK_FIELD[0] == 'H' && HYPERLINK_FIELD[1] == 'Y'
    ensures HYPERLINK_FIELD[8] == 'K' && HYPERLINK_FIELD[20] == 'E'
    ensures HYPERLINK_FIELD[10] == '"' && HYPERLINK_FIELD[11] == '{'
  {
  }

  lemma {:induction false} LinkPlacesI()
    ensures OnlyAt(HYPERLINK_FIELD, 'I', {6, 19})
  {
  }

  lemma {:induction false} LinkPlacesH()
    ensures OnlyAt(HYPERLINK_FIELD, 'H', {0})
  {
  }

  lemma {:induction false} LinkPlacesBackslash()
    ensures OnlyAt(HYPERLINK_FIELD, '\\', {})
  {
  }

  lemma {:induction false} LinkPlacesBrace()
    ensures OnlyAt(HYPERLINK_FIELD, '}', {40})
  {
  }

  lemma {:induction false} PictureChars()
    ensures |PICTURE_FIELD| == 45 && PICTURE_FIELD[0] == 'I' && PICTURE_FIELD[1] == 'N'
    ensures PICTURE_FIELD[2] == 'C' && PICTURE_FIELD[9] == 'C' && PICTURE_FIELD[25] == 'E'
  {
  }

  lemma {:induction false} PictureChars2()
    ensures |PICTURE_FIELD| == 45 && PICTURE_FIELD[15] == '"' && PICTURE_FIELD[16] == '{'
    ensures PICTURE_FIELD[44] == 'd'
  {
  }

  lemma {:induction false} PicturePlacesI()
    ensures OnlyAt(PICTURE_FIELD, 'I', {0, 8, 24})
  {
  }

  lemma {:induction false} PicturePlacesH()
    ensures OnlyAt(PICTURE_FIELD, 'H', {})
  {
  }

  lemma {:induction false} PicturePlacesBackslash()
    ensures OnlyAt(PICTURE_FIELD, '\\', {43})
  {
  }

  lemma {:induction false} PicturePlacesBrace()
    ensures OnlyAt(PICTURE_FIELD, '}', {40})
  {
  }

  lemma {:induction false} RecipientNameIsName() ensures FieldName("RecipientName") { }
  lemma {:induction false} CourseTitleIsName() ensures FieldName("CourseTitle") { }
  lemma {:induction false} DateIssuedIsName() ensures FieldName("DateIssued") { }
  lemma {:induction false} CertIdIsName() ensures FieldName("CertID") { }
  lemma {:induction false} CurrentHashIsName() ensures FieldName("CurrentHash") { }
  lemma {:induction false} VerificationUrlIsName() ensures FieldName("VerificationURL") { }

  lemma {:induction false} FieldNames()
    ensures forall j :: 0 <= j < |RESULT_FIELDS| ==> FieldName(RESULT_FIELDS[j])
  {
    RecipientNameIsName();
    CourseTitleIsName();
    DateIssuedIsName();
    CertIdIsName();
    CurrentHashIsName();
    VerificationUrlIsName();
  }

  /** The names differ in their first two letters. */
  lemma {:induction false} NameHeads()
    ensures forall j :: 0 <= j < |RESULT_FIELDS| ==> 2 <= |RESULT_FIELDS[j]|
    ensures forall j, i :: 0 <= j < i < |RESULT_FIELDS| ==>
      RESULT_FIELDS[i][0] != RESULT_FIELDS[j][0] || RESULT_FIELDS[i][1] != RESULT_FIELDS[j][1]
  {
  }

  // The facts the top-level lemmas combine.

  lemma {:induction false} LinkSelf()
    ensures NoOverlapInto(HYPERLINK_FIELD, HYPERLINK_FIELD) && NoStartWithin(HYPERLINK_FIELD, "}")
  {
    LinkChars();
    LinkPlacesH();
    SelfApartAlone(HYPERLINK_FIELD);
    NotInBrace(HYPERLINK_FIELD);
  }

  lemma {:induction false} PictureSelf()
    ensures NoOverlapInto(PICTURE_FIELD, PICTURE_FIELD)
  {
    PictureChars();
    PicturePlacesI();
    SelfApart(PICTURE_FIELD, 8, 24);
  }

  lemma {:induction false} LinkApartPicture()
    ensures Apart(HYPERLINK_FIELD, PICTURE_FIELD) && Apart(PICTURE_FIELD, HYPERLINK_FIELD)
  {
    LinkChars();
    LinkPlacesI();
    PictureChars();
    PicturePlacesH();
    InstructionsApart(HYPERLINK_FIELD, PICTURE_FIELD);
  }

  lemma {:induction false} ResultsApartLink()
    ensures forall j :: 0 <= j < |RESULT_FIELDS| ==>
      Apart(FieldResult(RESULT_FIELDS[j]), HYPERLINK_FIELD)
      && Apart(FieldResult(RESULT_FIELDS[j]), HYPERLINK_FIELD + "}")
  {
    FieldNames();
    LinkChars();
    LinkPlacesBackslash();
    forall j | 0 <= j < |RESULT_FIELDS|
      ensures Apart(FieldResult(RESULT_FIELDS[j]), HYPERLINK_FIELD)
      && Apart(FieldResult(RESULT_FIELDS[j]), HYPERLINK_FIELD + "}")
    {
      ResultApart(RESULT_FIELDS[j], HYPERLINK_FIELD, {});
    }
  }

  lemma {:induction false} ResultsApartPicture()
    ensures forall j :: 0 <= j < |RESULT_FIELDS| ==> Apart(FieldResult(RESULT_FIELDS[j]), PICTURE_FIELD)
  {
    FieldNames();
    PictureChars();
    PictureChars2();
    PicturePlacesBackslash();
    forall j | 0 <= j < |RESULT_FIELDS| ensures Apart(FieldResult(RESULT_FIELDS[j]), PICTURE_FIELD) {
      ResultApart(RESULT_FIELDS[j], PICTURE_FIELD, {43});
    }
  }

  lemma {:induction false} NamesApart()
    ensures forall j, i :: 0 <= j < i < |RESULT_FIELDS| ==>
      Apart(FieldResult(RESULT_FIELDS[j]), FieldResult(RESULT_FIELDS[i]) + "}")
  {
    FieldNames();
    NameHeads();
    forall j, i | 0 <= j < i < |RESULT_FIELDS|
      ensures Apart(FieldResult(RESULT_FIELDS[j]), FieldResult(RESULT_FIELDS[i]) + "}")
    {
      HeadsDiffer(RESULT_FIELDS[i], RESULT_FIELDS[j]);
      ResultApartResult(RESULT_FIELDS[j], RESULT_FIELDS[i]);
    }
  }

  lemma {:induction false} NamesSelf()
    ensures forall i :: 0 <= i < |RESULT_FIELDS| ==>
      NoOverlapInto(FieldResult(RESULT_FIELDS[i]), FieldResult(RESULT_FIELDS[i]))
      && NoStartWithin(FieldResult(RESULT_FIELDS[i]), "}")
  {
    FieldNames();
    forall i | 0 <= i < |RESULT_FIELDS|
      ensures NoOverlapInto(FieldResult(RESULT_FIELDS[i]), FieldResult(RESULT_FIELDS[i]))
      && NoStartWithin(FieldResult(RESULT_FIELDS[i]), "}")
    {
      ResultShape(RESULT_FIELDS[i]);
      SelfApartAlone(FieldResult(RESULT_FIELDS[i]));
      NotInBrace(FieldResult(RESULT_FIELDS[i]));
    }
  }

  lemma {:induction false} LaterNamesApart(s: string, i: nat)
    requires i < |RESULT_FIELDS| && Plain(s)
    requires forall j :: i < j < |RESULT_FIELDS| ==> !(RESULT_FIELDS[j] <= s)
    ensures forall j :: i < j < |RESULT_FIELDS| ==> Apart(FieldResult(RESULT_FIELDS[j]), FieldResult(s) + "}")
  {
    FieldNames();
    forall j | i < j < |RESULT_FIELDS| ensures Apart(FieldResult(RESULT_FIELDS[j]), FieldResult(s) + "}") {
      FirstDiffer(RESULT_FIELDS[j], s);
      ResultApartResult(RESULT_FIELDS[j], s);
    }
  }

  lemma {:induction false} PatternsApartResult(s: string)
    requires Plain(s)
    ensures Apart(HYPERLINK_FIELD, FieldResult(s) + "}") && Apart(PICTURE_FIELD, FieldResult(s) + "}")
  {
    ResultShape(s);
    PatternsApartEscaped(FieldResult(s) + "}");
  }

  lemma {:induction false} PatternsApartEscaped(y: string)
    requires 1 < |y| && y[0] == '\\' && y[1] == 'f' && y[|y| - 1] == '}' && BracesEscaped(y)
    ensures Apart(HYPERLINK_FIELD, y) && Apart(PICTURE_FIELD, y)
  {
    LinkChars();
    LinkPlacesBackslash();
    LinkPlacesBrace();
    PictureChars2();
    PicturePlacesBackslash();
    PicturePlacesBrace();
    OverlapNone(HYPERLINK_FIELD, y);
    NoStartBeforeBrace(HYPERLINK_FIELD, y, 11, 40);
    OverlapOnce(PICTURE_FIELD, y, 43);
    NoStartBeforeBrace(PICTURE_FIELD, y, 16, 40);
  }

  lemma {:induction false} PictureApartTarget(url: string)
    ensures Apart(PICTURE_FIELD, LinkTarget(url) + "}")
  {
    var y := LinkTarget(url) + "}";
    TargetShape(url);
    PictureChars2();
    PicturePlacesH();
    PicturePlacesBrace();
    OverlapNone(PICTURE_FIELD, y);
    NoStartBeforeBrace(PICTURE_FIELD, y, 16, 40);
  }

  lemma {:induction false} TargetShape(url: string)
    ensures var y := LinkTarget(url) + "}";
      1 < |y| && y[0] == 'H' && y[|y| - 1] == '}' && BracesEscaped(y)
  {
    var h := "HYPERLINK \"";
    var e := EscapeBraces(url);
    EscapedBraces(url);
    assert BracesEscaped(h);
    BracesEscapedAppend(h, e);
    BracesEscapedAppend(h + e, "\"");
    BracesEscapedAppend(h + e + "\"", "}");
  }

  // ---------------------------------------------------------------------------
  // The page join of main

  /** The separator line 66 puts between pages. */
  const PAGE_BREAK: string := "\\page\n"

  /** `sep.join(ps)`. */
  function Join(sep: string, ps: seq<string>): string
    decreases |ps|
  {
    if |ps| == 0 then ""
    else if |ps| == 1 then ps[0]
    else Join(sep, ps[..|ps| - 1]) + sep + ps[|ps| - 1]
  }

  /** `''.join(parts)`. */
  function Concat(parts: seq<string>): string
    decreases |parts|
  {
    if |parts| == 0 then "" else Concat(parts[..|parts| - 1]) + parts[|parts| - 1]
  }

  /** The pages of a merge: the template filled with each record, in CSV order. */
  function Pages(t: string, rows: seq<Record>): (ps: seq<string>)
    ensures |ps| == |rows| && forall i :: 0 <= i < |rows| ==> ps[i] == ApplyTemplate(t, rows[i])
  {
    seq(|rows|, i requires 0 <= i < |rows| => ApplyTemplate(t, rows[i]))
  }

  /** The total length of some strings. */
  function TotalLength(ps: seq<string>): nat
    decreases |ps|
  {
    if |ps| == 0 then 0 else TotalLength(ps[..|ps| - 1]) + |ps[|ps| - 1]|
  }

  /** The pages with a separator between each two consecutive ones. */
  function Interleave(ps: seq<string>, sep: string): (r: seq<string>)
    ensures |r| == if |ps| == 0 then 0 else 2 * |ps| - 1
    decreases |ps|
  {
    if |ps| <= 1 then ps else Interleave(ps[..|ps| - 1], sep) + [sep, ps[|ps| - 1]]
  }

  /** Page `j` sits at position `2j`, with a separator just before it unless it is the
      first: `n` pages, `n - 1` separators, and the last part is the last page. */
  lemma {:induction false} InterleaveAt(ps: seq<string>, sep: string)
    ensures var r := Interleave(ps, sep);
      forall j :: 0 <= j < |ps| ==> r[2 * j] == ps[j] && (j > 0 ==> r[2 * j - 1] == sep)
    decreases |ps|
  {
    if |ps| > 1 {
      var p := ps[..|ps| - 1];
      InterleaveAt(p, sep);
      var r := Interleave(ps, sep);
      forall j | 0 <= j < |ps| ensures r[2 * j] == ps[j] && (j > 0 ==> r[2 * j - 1] == sep) {
        if j < |p| {
          assert ps[j] == p[j];
        }
      }
    }
  }

  /** Lines 61-66: `merged_parts`, every page followed by a page break except the last. */
  method MergedParts(t: string, rows: seq<Record>) returns (parts: seq<string>)
    ensures parts == Interleave(Pages(t, rows), PAGE_BREAK)
  {
    ghost var pages := Pages(t, rows);
    parts := [];
    var i := 0;
    while i < |rows|
      invariant 0 <= i <= |rows|
      invariant parts == Interleave(pages[..i], PAGE_BREAK) + if 0 < i < |rows| then [PAGE_BREAK] else []
    {
      var page := ApplyTemplate(t, rows[i]);
      InterleaveStep(pages, i, PAGE_BREAK);
      parts := parts + [page];
      if i < |rows| - 1 {
        parts := parts + [PAGE_BREAK];
      }
      i := i + 1;
    }
    assert pages[..i] == pages;
  }

  lemma {:induction false} InterleaveStep(ps: seq<string>, i: nat, sep: string)
    requires i < |ps|
    ensures Interleave(ps[..i + 1], sep)
      == (if i == 0 then [] else Interleave(ps[..i], sep) + [sep]) + [ps[i]]
  {
    var q := ps[..i + 1];
    assert q[..i] == ps[..i];
    if i == 0 {
      assert q == [ps[0]];
    }
  }

  /** Joining the interleaved parts with nothing is joining the pages with the separator. */
  lemma {:induction false} ConcatInterleave(ps: seq<string>, sep: string)
    ensures Concat(Interleave(ps, sep)) == Join(sep, ps)
    decreases |ps|
  {
    if |ps| == 1 {
      assert ps[..0] == [];
    } else if |ps| > 1 {
      var p := ps[..|ps| - 1];
      ConcatInterleave(p, sep);
      var r := Interleave(ps, sep);
      var front := Interleave(p, sep);
      assert r[..|r| - 1] == front + [sep] && r[..|r| - 1][..|r| - 2] == front;
    }
  }

  /** The merged document of lines 61-70. */
  method MergeDocument(t: string, rows: seq<Record>) returns (doc: string)
    ensures doc == Join(PAGE_BREAK, Pages(t, rows))
  {
    var parts := MergedParts(t, rows);
    ConcatInterleave(Pages(t, rows), PAGE_BREAK);
    doc := Concat(parts);
  }

  /** The joined pages are as long as the pages plus one separator between each two. */
  lemma {:induction false} JoinLength(sep: string, ps: seq<string>)
    ensures |Join(sep, ps)| == TotalLength(ps) + if |ps| == 0 then 0 else (|ps| - 1) * |sep|
    decreases |ps|
  {
    if |ps| == 1 {
      assert ps[..0] == [];
    } else if |ps| > 1 {
      JoinLength(sep, ps[..|ps| - 1]);
    }
  }

  /** The document starts with the first page and ends with the last one: no separator
      comes after the last page. */
  lemma {:induction false} JoinEnds(sep: string, ps: seq<string>)
    requires |ps| > 0
    ensures var d := Join(sep, ps);
      |d| >= |ps[0]| + |ps[|ps| - 1]| - (if |ps| == 1 then |ps[0]| else 0)
      && d[..|ps[0]|] == ps[0] && d[|d| - |ps[|ps| - 1]|..] == ps[|ps| - 1]
    decreases |ps|
  {
    if |ps| > 1 {
      var p := ps[..|ps| - 1];
      JoinEnds(sep, p);
      var d := Join(sep, ps);
      assert d == Join(sep, p) + sep + ps[|ps| - 1];
      assert d[..|ps[0]|] == Join(sep, p)[..|ps[0]|];
    }
  }
}
