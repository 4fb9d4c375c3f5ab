/** The RTF merge of the root export_merge_rtf.py: `rtf_escape`, which also writes every
    non-ASCII character as the RTF control word `\uN?` (N the code point), and the
    `MERGEFIELD` pass of `apply_template` (line 29). */
module RtfUnicode {
  import opened Wrappers
  import opened Text
  import RtfMerge

  // ---------------------------------------------------------------------------
  // rtf_escape

  /** The class `[\x00-\x7f]`. */
  predicate IsAscii(c: char) {
    c as int < 128
  }

  predicate AllAscii(s: string) {
    forall k :: 0 <= k < |s| ==> IsAscii(s[k])
  }

  /** Lines 14-16, `encode_char`: a non-ASCII character becomes `\u`, its code point in
      decimal, and `?`; an ASCII character is not matched and stays as it is. */
  function UnicodeChar(c: char): string {
    if IsAscii(c) then [c] else "\\u" + Decimal(c as int) + "?"
  }

  /** Line 17: `re.sub(r'[^\x00-\x7f]', encode_char, text)`. */
  function EncodeNonAscii(s: string): string
    decreases |s|
  {
    if |s| == 0 then [] else UnicodeChar(s[0]) + EncodeNonAscii(s[1..])
  }

  /** `rtf_escape` of a string: the three replaces of lines 10-12, then line 17. Every
      character of the output is ASCII. */
  function RtfEscape(s: string): (r: string)
    ensures AllAscii(r)
  {
    EncodeIsAscii(RtfMerge.EscapeBraces(s));
    EncodeNonAscii(RtfMerge.EscapeBraces(s))
  }

  /** The escape of one character as the whole function treats it. */
  function CharCode(c: char): string {
    if RtfMerge.IsRtfSpecial(c) then ['\\', c] else UnicodeChar(c)
  }

  /** The reference escape: each character on its own, in order. */
  function EscapeUnicodeEach(s: string): string
    decreases |s|
  {
    if |s| == 0 then [] else CharCode(s[0]) + EscapeUnicodeEach(s[1..])
  }

  lemma {:induction false} EncodeAppend(a: string, b: string)
    ensures EncodeNonAscii(a + b) == EncodeNonAscii(a) + EncodeNonAscii(b)
    decreases |a|
  {
    if |a| == 0 {
      assert a + b == b;
    } else {
      assert (a + b)[1..] == a[1..] + b;
      EncodeAppend(a[1..], b);
    }
  }

  lemma {:induction false} EncodeEach(s: string)
    ensures EncodeNonAscii(RtfMerge.EscapeEach(s)) == EscapeUnicodeEach(s)
    decreases |s|
  {
    if |s| > 0 {
      var e := RtfMerge.EscapeChar(s[0]);
      EncodeAppend(e, RtfMerge.EscapeEach(s[1..]));
      if RtfMerge.IsRtfSpecial(s[0]) {
        assert e[1..][1..] == [];
      } else {
        assert e[1..] == [];
      }
      EncodeEach(s[1..]);
    }
  }

  /** Backslashes, braces and non-ASCII characters are each escaped on their own; every
      other character is copied; the order is kept. */
  lemma {:induction false} EscapePerCharacter(s: string)
    ensures RtfEscape(s) == EscapeUnicodeEach(s)
  {
    RtfMerge.EscapeBracesEach(s);
    EncodeEach(s);
  }

  lemma {:induction false} EncodeIsAscii(s: string)
    ensures AllAscii(EncodeNonAscii(s))
    decreases |s|
  {
    if |s| > 0 {
      EncodeIsAscii(s[1..]);
    }
  }

  lemma {:induction false} EncodeAsciiUnchanged(s: string)
    requires AllAscii(s)
    ensures EncodeNonAscii(s) == s
    decreases |s|
  {
    if |s| > 0 {
      EncodeAsciiUnchanged(s[1..]);
    }
  }

  lemma {:induction false} EscapeEachAscii(s: string)
    requires AllAscii(s)
    ensures AllAscii(RtfMerge.EscapeEach(s))
    decreases |s|
  {
    if |s| > 0 {
      EscapeEachAscii(s[1..]);
    }
  }

  /** On ASCII text this escape and the one of scripts/export_merge_rtf.py agree. */
  lemma {:induction false} AsciiAgrees(s: string)
    requires AllAscii(s)
    ensures RtfEscape(s) == RtfMerge.RtfEscape(Some(s))
  {
    RtfMerge.EscapeBracesEach(s);
    EscapeEachAscii(s);
    EncodeAsciiUnchanged(RtfMerge.EscapeBraces(s));
  }

  /** The `\uN?` form of a character, and the `?` that a reader of RTF skips. */
  lemma {:induction false} UnicodeForm(c: char)
    requires !IsAscii(c)
    ensures RtfEscape([c]) == "\\u" + Decimal(c as int) + "?"
  {
    EscapePerCharacter([c]);
    assert [c][1..] == [];
  }

  // ---------------------------------------------------------------------------
  // Reading the escape back

  /** Unicode scalar values: the code points a `char` can hold. */
  predicate IsScalar(n: int) {
    0 <= n < 0xD800 || 0xE000 <= n < 0x11_0000
  }

  /** The end of the run of decimal digits of `s` that starts at `i`. */
  function DigitsEnd(s: string, i: nat): (k: nat)
    requires i <= |s|
    ensures i <= k <= |s| && (k < |s| ==> !IsDigit(s[k]))
    ensures forall j :: i <= j < k ==> IsDigit(s[j])
    decreases |s| - i
  {
    if i < |s| && IsDigit(s[i]) then DigitsEnd(s, i + 1) else i
  }

  lemma {:induction false} DigitsEndAt(s: string, i: nat, k: nat)
    requires i <= k < |s| && !IsDigit(s[k])
    requires forall j :: i <= j < k ==> IsDigit(s[j])
    ensures DigitsEnd(s, i) == k
    decreases k - i
  {
    if i < k {
      DigitsEndAt(s, i + 1, k);
    }
  }

  /** The reader of the escape: `\` takes a reserved character literally, `\uN?` stands
      for the character with code point N, anything else is itself. */
  function Decode(s: string): string
    decreases |s|
  {
    if |s| == 0 then []
    else if |s| >= 2 && s[0] == '\\' && RtfMerge.IsRtfSpecial(s[1]) then [s[1]] + Decode(s[2..])
    else if |s| >= 2 && s[0] == '\\' && s[1] == 'u' then
      var k := DigitsEnd(s, 2);
      assert AllDigits(s[2..k]);
      if 2 < k < |s| && s[k] == '?' && IsScalar(DecimalValue(s[2..k])) then
        [DecimalValue(s[2..k]) as char] + Decode(s[k + 1..])
      else [s[0]] + Decode(s[1..])
    else [s[0]] + Decode(s[1..])
  }

  lemma {:induction false} DecodeChar(c: char, rest: string)
    ensures Decode(CharCode(c) + rest) == [c] + Decode(rest)
  {
    if RtfMerge.IsRtfSpecial(c) {
      var t := ['\\', c] + rest;
      assert t[0] == '\\' && t[1] == c && t[2..] == rest;
    } else if IsAscii(c) {
      var t := [c] + rest;
      assert t[0] == c && t[1..] == rest;
    } else {
      DecodeUnicode(c, rest);
    }
  }

  lemma {:induction false} DecodeUnicode(c: char, rest: string)
    requires !IsAscii(c)
    ensures Decode("\\u" + Decimal(c as int) + "?" + rest) == [c] + Decode(rest)
  {
    var d := Decimal(c as int);
    var t := "\\u" + d + "?" + rest;
    var k := 2 + |d|;
    assert t[0] == '\\' && t[1] == 'u';
    assert forall j :: 2 <= j < k ==> t[j] == d[j - 2];
    assert t[k] == '?';
    DigitsEndAt(t, 2, k);
    assert t[2..k] == d && t[k + 1..] == rest;
    DecimalRoundTrip(c as int);
  }

  /** Nothing is lost: reading the escape back gives the text. */
  lemma {:induction false} DecodeEscape(s: string)
    ensures Decode(RtfEscape(s)) == s
  {
    EscapePerCharacter(s);
    DecodeEach(s);
  }

  lemma {:induction false} DecodeEach(s: string)
    ensures Decode(EscapeUnicodeEach(s)) == s
    decreases |s|
  {
    if |s| > 0 {
      DecodeChar(s[0], EscapeUnicodeEach(s[1..]));
      DecodeEach(s[1..]);
      assert s == [s[0]] + s[1..];
    }
  }

  // ---------------------------------------------------------------------------
  // The MERGEFIELD pass of line 29: re.sub(r'\{\s*MERGEFIELD\s+([^}]+)\s*\}', ...)

  const MERGEFIELD := "MERGEFIELD"

  /** A match at the start of the text: the captured group and the length matched. */
  datatype FieldMatch = FieldMatch(name: string, end: nat)

  /** The first `}` of `s` at or after `i`, or `|s|`. */
  function CloseFrom(s: string, i: nat): (e: nat)
    requires i <= |s|
    ensures i <= e <= |s| && (e < |s| ==> s[e] == '}')
    ensures forall k :: i <= k < e ==> s[k] != '}'
    decreases |s| - i
  {
    if i == |s| || s[i] == '}' then i else CloseFrom(s, i + 1)
  }

  /** The pattern matched at the start of `s`. The leading `\s*` is greedy and stops at
      the `M`; `\s+` is greedy too, and the group `[^}]+` then runs to the first `}`.
      When that `}` comes right after the spaces, the group can only be the last of
      them, which needs at least two spaces; otherwise there is no match here. */
  function MatchField(s: string): (r: Option<FieldMatch>)
    ensures r.Some? ==> 0 < r.value.end <= |s|
    ensures r.Some? ==> s[0] == '{' && s[r.value.end - 1] == '}' && |r.value.name| > 0
  {
    if |s| == 0 || s[0] != '{' then None
    else
      var p := SkipSpaces(s, 1);
      if |s| - p < |MERGEFIELD| || s[p..p + |MERGEFIELD|] != MERGEFIELD then None
      else
        var m := p + |MERGEFIELD|;
        var q := SkipSpaces(s, m);
        var e := CloseFrom(s, q);
        if q == m || e == |s| then None
        else if q < e || m + 2 <= q then Some(FieldMatch(GroupOf(s, q, e), e + 1))
        else None
  }

  /** The group: the text from `q` to the brace at `e`, or the last space before `q`
      when the brace comes right after the spaces. */
  function GroupOf(s: string, q: nat, e: nat): string
    requires 0 < q <= e <= |s|
  {
    if q < e then s[q..e] else s[q - 1..q]
  }

  /** `s[i..j]` is whitespace. */
  predicate Blank(s: string, i: nat, j: nat)
    decreases j - i
  {
    i >= j || (i < |s| && IsSpace(s[i]) && Blank(s, i + 1, j))
  }

  lemma {:induction false} BlankSpaces(s: string, i: nat, j: nat)
    requires j <= |s|
    ensures Blank(s, i, j) <==> forall k :: i <= k < j ==> IsSpace(s[k])
    decreases j - i
  {
    if i < j {
      BlankSpaces(s, i + 1, j);
    }
  }

  /** The language of the pattern, written out: `{`, whitespace, `MERGEFIELD`, at least
      one whitespace character up to `g`, then a non-empty run without `}` (the group
      and the trailing `\s*`, which the group can always absorb), then `}` ending at
      `end`. */
  predicate FieldSyntax(s: string, p: nat, g: nat, end: nat) {
    && 1 <= p && p + |MERGEFIELD| < g < end - 1 && end <= |s|
    && s[0] == '{' && Blank(s, 1, p) && s[p..p + |MERGEFIELD|] == MERGEFIELD
    && Blank(s, p + |MERGEFIELD|, g)
    && (forall k :: g <= k < end - 1 ==> s[k] != '}')
    && s[end - 1] == '}'
  }

  /** Every match is text of the pattern's language, and the group is the text that
      follows the whitespace after `MERGEFIELD`, up to the closing brace. */
  lemma {:induction false} MatchSound(s: string)
    requires MatchField(s).Some?
    ensures var f := MatchField(s).value;
      exists p: nat, g: nat :: FieldSyntax(s, p, g, f.end) && f.name == s[g..f.end - 1]
  {
    var f := MatchField(s).value;
    var p := SkipSpaces(s, 1);
    var m := p + |MERGEFIELD|;
    var q := SkipSpaces(s, m);
    SkipSpacesSkipsSpaces(s, 1);
    SkipSpacesSkipsSpaces(s, m);
    var g := if q < f.end - 1 then q else q - 1;
    BlankSpaces(s, 1, p);
    BlankSpaces(s, m, g);
    assert FieldSyntax(s, p, g, f.end);
  }

  /** Every text of the pattern's language is matched, up to the same closing brace,
      and the names agree once stripped. */
  lemma {:induction false} MatchComplete(s: string, p: nat, g: nat, end: nat)
    requires FieldSyntax(s, p, g, end)
    ensures exists name :: MatchField(s) == Some(FieldMatch(name, end)) && Trim(name) == Trim(s[g..end - 1])
  {
    var q := SkipSpaces(s, p + |MERGEFIELD|);
    MatchPositions(s, p, g, end);
    GroupTrim(s, g, q, end);
  }

  lemma {:induction false} MatchPositions(s: string, p: nat, g: nat, end: nat)
    requires FieldSyntax(s, p, g, end)
    ensures var q := SkipSpaces(s, p + |MERGEFIELD|);
      && g <= q <= end - 1 && 0 < q && Blank(s, g, q)
      && MatchField(s) == Some(FieldMatch(GroupOf(s, q, end - 1), end))
  {
    FieldPositions(s, p, g, end);
    MatchFieldIs(s, p, SkipSpaces(s, p + |MERGEFIELD|), end - 1);
  }

  /** The match `MatchField` reports, given where its scan stops. */
  lemma {:induction false} MatchFieldIs(s: string, p: nat, q: nat, e: nat)
    requires |s| > 0 && s[0] == '{' && SkipSpaces(s, 1) == p
    requires p + |MERGEFIELD| < q <= e < |s| && s[p..p + |MERGEFIELD|] == MERGEFIELD
    requires SkipSpaces(s, p + |MERGEFIELD|) == q && CloseFrom(s, q) == e
    requires q < e || p + |MERGEFIELD| + 2 <= q
    ensures MatchField(s) == Some(FieldMatch(GroupOf(s, q, e), e + 1))
  {
  }

  /** The scan of `MatchField` skips to `p` after the brace and to `q` after the keyword,
      and finds the closing brace at `e`; the run of the language starts at `g`. */
  predicate ScanStops(s: string, p: nat, g: nat, q: nat, e: nat) {
    && |s| > 0 && s[0] == '{' && SkipSpaces(s, 1) == p
    && p + |MERGEFIELD| < g <= q <= e < |s| && g < e && s[p..p + |MERGEFIELD|] == MERGEFIELD
    && SkipSpaces(s, p + |MERGEFIELD|) == q && CloseFrom(s, q) == e && Blank(s, g, q)
  }

  /** Where the scan of `MatchField` stops on text of the pattern's language. */
  lemma {:induction false} FieldPositions(s: string, p: nat, g: nat, end: nat)
    requires FieldSyntax(s, p, g, end)
    ensures ScanStops(s, p, g, SkipSpaces(s, p + |MERGEFIELD|), end - 1)
  {
    var m := p + |MERGEFIELD|;
    assert s[p] == s[p..m][0];
    BlankSpaces(s, 1, p);
    BlankSpaces(s, m, g);
    SkipSpacesAt(s, 1, p);
    var q := SkipSpaces(s, m);
    SkipSpacesSkipsSpaces(s, m);
    SkipSpacesPast(s, m, g);
    CloseAt(s, q, end - 1);
    BlankSpaces(s, g, q);
  }

  /** The group and the run of the language from `g` agree once stripped: they differ
      only by whitespace at the front. */
  lemma {:induction false} GroupTrim(s: string, g: nat, q: nat, end: nat)
    requires 0 < q && g <= q <= end - 1 && end <= |s| && g < end - 1 && Blank(s, g, q)
    ensures Trim(GroupOf(s, q, end - 1)) == Trim(s[g..end - 1])
  {
    var h := if q < end - 1 then q else q - 1;
    BlankSpaces(s, g, q);
    BlankSpaces(s, g, h);
    var a := s[g..h];
    assert s[g..end - 1] == a + s[h..end - 1] + [];
    TrimPadded(a, s[h..end - 1], []);
  }

  lemma {:induction false} SkipSpacesPast(s: string, i: nat, j: nat)
    requires i <= j <= |s|
    requires forall k :: i <= k < j ==> IsSpace(s[k])
    ensures SkipSpaces(s, i) == SkipSpaces(s, j)
    decreases j - i
  {
    if i < j {
      SkipSpacesPast(s, i + 1, j);
    }
  }

  lemma {:induction false} CloseAt(s: string, i: nat, e: nat)
    requires i <= e < |s| && s[e] == '}'
    requires forall k :: i <= k < e ==> s[k] != '}'
    ensures CloseFrom(s, i) == e
    decreases e - i
  {
    if i < e {
      CloseAt(s, i + 1, e);
    }
  }

  /** Lines 7-8, `str(text)` of a cell: the text itself, or `None` written out for a cell
      the row is too short for. */
  function CellText(v: Option<string>): string {
    match v
    case None => "None"
    case Some(t) => t
  }

  /** Lines 24-28, `replace_mergefield`: a name found among the data keys, once stripped,
      becomes its escaped cell text, ASCII text that reads back as that cell; any other
      field is left exactly as written. */
  function Substitute(s: string, f: FieldMatch, data: RtfMerge.Record): (r: string)
    requires f.end <= |s|
    ensures Trim(f.name) in data ==> AllAscii(r) && Decode(r) == CellText(data[Trim(f.name)])
    ensures Trim(f.name) !in data ==> r == s[..f.end]
  {
    var key := Trim(f.name);
    if key in data then
      DecodeEscape(CellText(data[key]));
      RtfEscape(CellText(data[key]))
    else s[..f.end]
  }

  /** Line 29: `re.sub` scans left to right, replaces each match and goes on after it;
      the replacement is not scanned again. With no data at all the pass changes
      nothing. */
  function MergeFields(s: string, data: RtfMerge.Record): (r: string)
    ensures data == map[] ==> r == s
    decreases |s|
  {
    if |s| == 0 then []
    else
      match MatchField(s)
      case Some(f) =>
        assert s == s[..f.end] + s[f.end..];
        Substitute(s, f, data) + MergeFields(s[f.end..], data)
      case None =>
        assert s == [s[0]] + s[1..];
        [s[0]] + MergeFields(s[1..], data)
  }

  /** No field of `s`, at any position, names a data key. */
  predicate NoKnownField(s: string, data: RtfMerge.Record) {
    forall k :: 0 <= k < |s| && MatchField(s[k..]).Some? ==> Trim(MatchField(s[k..]).value.name) !in data
  }

  lemma {:induction false} NoKnownFieldSuffix(s: string, n: nat, data: RtfMerge.Record)
    requires n <= |s| && NoKnownField(s, data)
    ensures NoKnownField(s[n..], data)
  {
    var t := s[n..];
    forall k | 0 <= k < |t| && MatchField(t[k..]).Some?
      ensures Trim(MatchField(t[k..]).value.name) !in data
    {
      assert t[k..] == s[n + k..];
    }
  }

  /** A text where no field names a data key, even where fields overlap, is unchanged. */
  lemma {:induction false} UnknownFieldsKept(s: string, data: RtfMerge.Record)
    requires NoKnownField(s, data)
    ensures MergeFields(s, data) == s
    decreases |s|
  {
    if |s| > 0 {
      var n := if MatchField(s).Some? then MatchField(s).value.end else 1;
      NoKnownFieldSuffix(s, n, data);
      UnknownFieldsKept(s[n..], data);
      FirstStepKept(s, data);
      SplitAt(s, n);
    }
  }

  /** The first step of the scan keeps what it passes over. */
  lemma {:induction false} FirstStepKept(s: string, data: RtfMerge.Record)
    requires |s| > 0 && NoKnownField(s, data)
    ensures var n := if MatchField(s).Some? then MatchField(s).value.end else 1;
      n <= |s| && MergeFields(s, data) == s[..n] + MergeFields(s[n..], data)
  {
    assert s[0..] == s;
    if MatchField(s).None? {
      assert s[..1] == [s[0]];
    }
  }

  lemma {:induction false} SplitAt<T>(s: seq<T>, n: nat)
    requires n <= |s|
    ensures s[..n] + s[n..] == s
  {
  }

  /** A field as templates write it. */
  function FieldText(name: string): string {
    "{ " + MERGEFIELD + " " + name + " }"
  }

  /** A name that strip leaves alone and that has no closing brace. */
  predicate PlainName(name: string) {
    |name| > 0 && '}' !in name && !IsSpace(name[0]) && !IsSpace(name[|name| - 1])
  }

  lemma {:induction false} FieldTextSyntax(name: string, b: string)
    requires PlainName(name)
    ensures var x := FieldText(name) + b;
      && FieldSyntax(x, 2, 13, |FieldText(name)|) && x[13..|FieldText(name)| - 1] == name + " "
      && x[..|FieldText(name)|] == FieldText(name) && x[|FieldText(name)|..] == b
  {
    var x := FieldText(name) + b;
    var n := |FieldText(name)|;
    assert x[..n] == FieldText(name);
    assert x[2..12] == MERGEFIELD;
    assert x[13..n - 1] == name + " ";
    assert forall k :: 13 <= k < n - 1 ==> x[k] != '}' by {
      forall k | 13 <= k < n - 1 ensures x[k] != '}' {
        assert x[k] == (name + " ")[k - 13];
      }
    }
  }

  /** A field in the usual form is matched as a whole. */
  lemma {:induction false} FieldTextMatched(name: string, b: string)
    requires PlainName(name)
    ensures exists g :: MatchField(FieldText(name) + b) == Some(FieldMatch(g, |FieldText(name)|)) && Trim(g) == name
  {
    var x := FieldText(name) + b;
    var n := |FieldText(name)|;
    FieldTextSyntax(name, b);
    MatchComplete(x, 2, 13, n);
    var g :| MatchField(x) == Some(FieldMatch(g, n)) && Trim(g) == Trim(x[13..n - 1]);
    TrimPadded([], name, " ");
    assert [] + name + " " == name + " ";
    TrimUnpadded(name);
  }

  lemma {:induction false} PrefixCopied(a: string, t: string, data: RtfMerge.Record)
    requires '{' !in a
    ensures MergeFields(a + t, data) == a + MergeFields(t, data)
    decreases |a|
  {
    if |a| > 0 {
      var x := a + t;
      assert x[0] == a[0] && x[1..] == a[1..] + t;
      PrefixCopied(a[1..], t, data);
      assert a == [a[0]] + a[1..];
    } else {
      assert a + t == t;
    }
  }

  /** Lines 24-29 on a field in the usual form: a name among the data keys becomes the
      escaped value, any other name leaves the field exactly as written; the text before
      it is copied and the text after it is scanned on. */
  lemma {:induction false} FieldReplaced(a: string, name: string, b: string, data: RtfMerge.Record)
    requires '{' !in a && PlainName(name)
    ensures MergeFields(a + FieldText(name) + b, data)
      == a + (if name in data then RtfEscape(CellText(data[name])) else FieldText(name)) + MergeFields(b, data)
  {
    var x := FieldText(name) + b;
    FieldAtFront(name, b, data);
    AppendAssoc(a, FieldText(name), b);
    PrefixCopied(a, x, data);
  }

  /** A cell the row is too short for is `None`; a field naming its column is filled with
      the text `None`, as `str(None)` writes it. */
  lemma {:induction false} MissingCellWritten(a: string, name: string, b: string, data: RtfMerge.Record)
    requires '{' !in a && PlainName(name) && name in data && data[name] == None
    ensures MergeFields(a + FieldText(name) + b, data) == a + "None" + MergeFields(b, data)
  {
    FieldReplaced(a, name, b, data);
    EscapePerCharacter("None");
    assert EscapeUnicodeEach("None") == "None" by {
      var t := "None";
      assert t[1..] == "one" && t[1..][1..] == "ne" && t[1..][1..][1..] == "e";
    }
  }

  lemma {:induction false} AppendAssoc<T>(a: seq<T>, b: seq<T>, c: seq<T>)
    ensures a + b + c == a + (b + c)
  {
  }

  lemma {:induction false} FieldAtFront(name: string, b: string, data: RtfMerge.Record)
    requires PlainName(name)
    ensures MergeFields(FieldText(name) + b, data)
      == (if name in data then RtfEscape(CellText(data[name])) else FieldText(name)) + MergeFields(b, data)
  {
    var x := FieldText(name) + b;
    FieldTextSyntax(name, b);
    FieldTextMatched(name, b);
    var g :| MatchField(x) == Some(FieldMatch(g, |FieldText(name)|)) && Trim(g) == name;
    assert MergeFields(x, data) == Substitute(x, FieldMatch(g, |FieldText(name)|), data) + MergeFields(b, data);
  }
}
