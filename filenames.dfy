/**
 * Export file names: the banner text made safe for a file system
 * (`sanitize_filename`) and the automatic export name built from it and a
 * timestamp (`generate_export_filename`). The clock is read by the caller
 * and passed in as a `DateTime`.
 */
module FileNames {
  import opened Text
  import opened Wrappers

  const Fallback: string := "export"
  const DefaultMaxLength: int := 50

  /** The characters of the class `[<>:"/\\|?*]` that the sanitiser deletes. */
  predicate IsForbidden(c: char) {
    c in "<>:\"/\\|?*"
  }

  predicate Safe(s: string) {
    forall i :: 0 <= i < |s| ==> !IsForbidden(s[i]) && !IsSpace(s[i])
  }

  lemma FallbackSafe()
    ensures Safe(Fallback)
  {
  }

  /** `re.sub(r'[<>:"/\\|?*]', '', s)`: the forbidden characters deleted, the rest kept in order. */
  function RemoveForbidden(s: string): (r: string)
    ensures |r| <= |s|
    ensures forall i :: 0 <= i < |r| ==> !IsForbidden(r[i]) && r[i] in s
    ensures (forall i :: 0 <= i < |s| ==> !IsForbidden(s[i])) ==> r == s
  {
    if s == [] then []
    else (if IsForbidden(s[0]) then [] else [s[0]]) + RemoveForbidden(s[1..])
  }

  /** Deleting works character by character: the two halves of a string are cleaned separately, order kept. */
  lemma {:induction false} RemoveForbiddenAppend(a: string, b: string)
    ensures RemoveForbidden(a + b) == RemoveForbidden(a) + RemoveForbidden(b)
  {
    if a == [] {
      assert a + b == b;
    } else {
      var c, rest := a[0], a[1..];
      var head: string := if IsForbidden(c) then [] else [c];
      assert a == [c] + rest;
      assert a + b == [c] + (rest + b);
      calc {
        RemoveForbidden(a + b);
        { RemoveForbiddenCons(c, rest + b); }
        head + RemoveForbidden(rest + b);
        { RemoveForbiddenAppend(rest, b); }
        head + (RemoveForbidden(rest) + RemoveForbidden(b));
        (head + RemoveForbidden(rest)) + RemoveForbidden(b);
        { RemoveForbiddenCons(c, rest); }
        RemoveForbidden(a) + RemoveForbidden(b);
      }
    }
  }

  lemma RemoveForbiddenCons(c: char, s: string)
    ensures RemoveForbidden([c] + s) == (if IsForbidden(c) then [] else [c]) + RemoveForbidden(s)
  {
    assert ([c] + s)[1..] == s;
  }

  /** Every character that is not forbidden is kept, as often as it occurs. */
  lemma RemoveForbiddenCounts(s: string)
    ensures forall c :: !IsForbidden(c) ==> multiset(RemoveForbidden(s))[c] == multiset(s)[c]
  {
    forall c | !IsForbidden(c)
      ensures multiset(RemoveForbidden(s))[c] == multiset(s)[c]
    {
      RemoveForbiddenCount(s, c);
    }
  }

  lemma {:induction false} RemoveForbiddenCount(s: string, c: char)
    requires !IsForbidden(c)
    ensures multiset(RemoveForbidden(s))[c] == multiset(s)[c]
  {
    if s != [] {
      var x, rest := s[0], s[1..];
      assert s == [x] + rest;
      RemoveForbiddenCons(x, rest);
      RemoveForbiddenCount(rest, c);
      var kept := RemoveForbidden(rest);
      if IsForbidden(x) {
        assert RemoveForbidden(s) == kept;
        assert multiset(s) == multiset([x]) + multiset(rest);
        assert multiset([x])[c] == 0;
      } else {
        assert RemoveForbidden(s) == [x] + kept;
        assert multiset([x] + kept) == multiset([x]) + multiset(kept);
        assert multiset(s) == multiset([x]) + multiset(rest);
      }
    }
  }

  /** A single character is deleted exactly when it is forbidden. */
  lemma RemoveForbiddenChar(c: char)
    ensures RemoveForbidden([c]) == if IsForbidden(c) then [] else [c]
  {
    assert [c][1..] == [];
  }

  /** `re.sub(r'\s+', '_', s)`: every maximal run of whitespace becomes a single underscore. */
  function CollapseSpace(s: string): (r: string)
    ensures |r| <= |s|
    ensures NoSpace(r)
    ensures forall i :: 0 <= i < |r| ==> r[i] == '_' || r[i] in s
    ensures NoSpace(s) ==> r == s
    decreases |s|
  {
    if s == [] then []
    else if IsSpace(s[0]) then
      var rest := TrimStart(s[1..]);
      var tail := CollapseSpace(rest);
      CollapseStep(s, '_', rest, tail);
      "_" + tail
    else
      var tail := CollapseSpace(s[1..]);
      CollapseStep(s, s[0], s[1..], tail);
      NoSpaceCons(s[0], s[1..]);
      assert s == [s[0]] + s[1..];
      [s[0]] + tail
  }

  /** One step of `CollapseSpace`: `c` followed by the collapsed rest of `s`. */
  lemma CollapseStep(s: string, c: char, rest: string, tail: string)
    requires s != [] && (c == '_' || c == s[0]) && !IsSpace(c)
    requires |rest| < |s| && rest == s[|s| - |rest|..]
    requires |tail| <= |rest| && NoSpace(tail)
    requires forall i :: 0 <= i < |tail| ==> tail[i] == '_' || tail[i] in rest
    ensures |[c] + tail| <= |s| && NoSpace([c] + tail)
    ensures forall i :: 0 <= i < |[c] + tail| ==> ([c] + tail)[i] == '_' || ([c] + tail)[i] in s
  {
    NoSpaceCons(c, tail);
    forall i | 0 <= i < |tail| && tail[i] in rest
      ensures tail[i] in s
    {
      var j :| 0 <= j < |rest| && rest[j] == tail[i];
      assert s[|s| - |rest| + j] == rest[j];
    }
    forall i | 0 <= i < |[c] + tail|
      ensures ([c] + tail)[i] == '_' || ([c] + tail)[i] in s
    {
      if 0 < i {
        assert ([c] + tail)[i] == tail[i - 1];
      }
    }
  }

  /** Whitespace before a character that is not whitespace is all that `lstrip` removes. */
  lemma {:induction false} TrimStartSpaces(ws: string, b: string)
    requires forall i :: 0 <= i < |ws| ==> IsSpace(ws[i])
    requires b == [] || !IsSpace(b[0])
    ensures TrimStart(ws + b) == b
  {
    if ws == [] {
      assert ws + b == b;
    } else {
      assert (ws + b)[1..] == ws[1..] + b;
      TrimStartSpaces(ws[1..], b);
    }
  }

  /** Once `lstrip` reaches a character that is not whitespace, what follows is kept. */
  lemma {:induction false} TrimStartAppend(x: string, y: string)
    requires TrimStart(x) != []
    ensures TrimStart(x + y) == TrimStart(x) + y
  {
    assert (x + y)[0] == x[0];
    if IsSpace(x[0]) {
      assert TrimStart(x[1..]) == TrimStart(x);
      assert (x + y)[1..] == x[1..] + y;
      TrimStartAppend(x[1..], y);
    } else {
      assert TrimStart(x) == x && TrimStart(x + y) == x + y;
    }
  }

  /**
   * A whitespace run between two words becomes exactly one `_`, and the
   * text on either side is collapsed on its own.
   */
  lemma {:induction false} CollapseSpaceRun(a: string, ws: string, b: string)
    requires ws != [] && forall i :: 0 <= i < |ws| ==> IsSpace(ws[i])
    requires a == [] || !IsSpace(a[|a| - 1])
    requires b == [] || !IsSpace(b[0])
    ensures CollapseSpace(a + ws + b) == CollapseSpace(a) + "_" + CollapseSpace(b)
    decreases |a|, 1
  {
    if a == [] {
      assert a + ws + b == ws + b;
      CollapseSpaceAfterRun(ws, b);
    } else if !IsSpace(a[0]) {
      CollapseSpaceRunWord(a, ws, b);
    } else {
      CollapseSpaceRunSpace(a, ws, b);
    }
  }

  lemma {:induction false} CollapseSpaceRunWord(a: string, ws: string, b: string)
    requires ws != [] && forall i :: 0 <= i < |ws| ==> IsSpace(ws[i])
    requires a != [] && !IsSpace(a[0]) && !IsSpace(a[|a| - 1])
    requires b == [] || !IsSpace(b[0])
    ensures CollapseSpace(a + ws + b) == CollapseSpace(a) + "_" + CollapseSpace(b)
    decreases |a|, 0
  {
    var c, x := a[0], a[1..];
    assert a == [c] + x && a + ws + b == [c] + (x + ws + b);
    var p, q := CollapseSpace(x), CollapseSpace(b);
    calc {
      CollapseSpace(a + ws + b);
      { CollapseSpaceWord(c, x + ws + b); }
      [c] + CollapseSpace(x + ws + b);
      { CollapseSpaceRun(x, ws, b); }
      [c] + (p + "_" + q);
      { SeqAssoc([c], p, "_", q); }
      ([c] + p) + "_" + q;
      { CollapseSpaceWord(c, x); }
      CollapseSpace(a) + "_" + q;
    }
  }

  /** `lstrip` keeps a last character that is not whitespace. */
  lemma TrimStartKeepsLast(x: string)
    requires x != [] && !IsSpace(x[|x| - 1])
    ensures TrimStart(x) != [] && TrimStart(x)[|TrimStart(x)| - 1] == x[|x| - 1]
  {
  }

  lemma SplitFirst(a: string, ws: string, b: string)
    requires a != []
    ensures a + ws + b == [a[0]] + (a[1..] + (ws + b))
  {
    assert a == [a[0]] + a[1..];
  }

  lemma TailOfCons(c: char, y: string)
    ensures ([c] + y)[0] == c && ([c] + y)[1..] == y
  {
  }

  lemma SeqAssoc(w: string, p: string, u: string, q: string)
    ensures w + (p + u + q) == (w + p) + u + q
  {
  }

  lemma {:induction false} CollapseSpaceRunSpace(a: string, ws: string, b: string)
    requires ws != [] && forall i :: 0 <= i < |ws| ==> IsSpace(ws[i])
    requires a != [] && IsSpace(a[0]) && !IsSpace(a[|a| - 1])
    requires b == [] || !IsSpace(b[0])
    ensures CollapseSpace(a + ws + b) == CollapseSpace(a) + "_" + CollapseSpace(b)
    decreases |a|, 0
  {
    var t := LeadingRunDropped(a, ws, b);
    var p, q := CollapseSpace(t), CollapseSpace(b);
    calc {
      CollapseSpace(a + ws + b);
      "_" + CollapseSpace(t + ws + b);
      { CollapseSpaceRun(t, ws, b); }
      "_" + (p + "_" + q);
      { SeqAssoc("_", p, "_", q); }
      ("_" + p) + "_" + q;
      { CollapseSpaceSpace(a); }
      CollapseSpace(a) + "_" + q;
    }
  }

  /** The leading whitespace run of `a` collapses to `_`, leaving `a` without it, still ending in a word character. */
  lemma LeadingRunDropped(a: string, ws: string, b: string) returns (t: string)
    requires a != [] && IsSpace(a[0]) && !IsSpace(a[|a| - 1])
    ensures t == TrimStart(a[1..]) && |t| < |a| && t != [] && !IsSpace(t[|t| - 1])
    ensures CollapseSpace(a + ws + b) == "_" + CollapseSpace(t + ws + b)
  {
    var x := a[1..];
    var s := a + ws + b;
    SplitFirst(a, ws, b);
    TailOfCons(a[0], x + (ws + b));
    assert x != [] && x[|x| - 1] == a[|a| - 1];
    TrimStartKeepsLast(x);
    t := TrimStart(x);
    CollapseSpaceSpace(s);
    TrimStartAppend(x, ws + b);
    assert t + (ws + b) == t + ws + b;
  }

  /** A word character is copied and the rest collapsed. */
  lemma CollapseSpaceWord(c: char, s: string)
    requires !IsSpace(c)
    ensures CollapseSpace([c] + s) == [c] + CollapseSpace(s)
  {
    assert ([c] + s)[1..] == s;
  }

  /** A string that starts with whitespace becomes `_` and the rest after that run. */
  lemma CollapseSpaceSpace(s: string)
    requires s != [] && IsSpace(s[0])
    ensures CollapseSpace(s) == "_" + CollapseSpace(TrimStart(s[1..]))
  {
  }

  lemma CollapseSpaceAfterRun(ws: string, b: string)
    requires ws != [] && forall i :: 0 <= i < |ws| ==> IsSpace(ws[i])
    requires b == [] || !IsSpace(b[0])
    ensures CollapseSpace(ws + b) == "_" + CollapseSpace(b)
  {
    assert (ws + b)[1..] == ws[1..] + b;
    TrimStartSpaces(ws[1..], b);
    CollapseSpaceSpace(ws + b);
  }

  /** The characters a reader sees as the words of a name: neither whitespace nor an underscore. */
  function Words(s: string): (r: string)
    ensures |r| <= |s|
  {
    if s == [] then []
    else (if IsSpace(s[0]) || s[0] == '_' then [] else [s[0]]) + Words(s[1..])
  }

  lemma {:induction false} WordsOfSpaces(s: string)
    requires forall i :: 0 <= i < |s| ==> IsSpace(s[i])
    ensures Words(s) == []
  {
    if s != [] { WordsOfSpaces(s[1..]); }
  }

  /** Collapsing whitespace keeps every word character, in order, and adds none. */
  lemma {:induction false} CollapseSpaceKeepsWords(s: string)
    ensures Words(CollapseSpace(s)) == Words(s)
    decreases |s|
  {
    if s == [] {
    } else if IsSpace(s[0]) {
      var rest := TrimStart(s[1..]);
      var tail := CollapseSpace(rest);
      assert CollapseSpace(s) == "_" + tail;
      CollapseSpaceKeepsWords(rest);
      var dropped := s[1..][..|s[1..]| - |rest|];
      assert s[1..] == dropped + rest;
      WordsOfSpaces(dropped);
      WordsAppend(dropped, rest);
      assert s == [s[0]] + s[1..];
      WordsCons(s[0], s[1..]);
      WordsCons('_', tail);
    } else {
      var tail := CollapseSpace(s[1..]);
      assert CollapseSpace(s) == [s[0]] + tail;
      CollapseSpaceKeepsWords(s[1..]);
      assert s == [s[0]] + s[1..];
      WordsCons(s[0], s[1..]);
      WordsCons(s[0], tail);
    }
  }

  lemma {:induction false} WordsAppend(a: string, b: string)
    ensures Words(a + b) == Words(a) + Words(b)
  {
    if a == [] {
      assert a + b == b;
    } else {
      var c, rest := a[0], a[1..];
      var head: string := if IsSpace(c) || c == '_' then [] else [c];
      assert a == [c] + rest;
      assert a + b == [c] + (rest + b);
      calc {
        Words(a + b);
        { WordsCons(c, rest + b); }
        head + Words(rest + b);
        { WordsAppend(rest, b); }
        head + (Words(rest) + Words(b));
        (head + Words(rest)) + Words(b);
        { WordsCons(c, rest); }
        Words(a) + Words(b);
      }
    }
  }

  lemma WordsCons(c: char, s: string)
    ensures Words([c] + s) == (if IsSpace(c) || c == '_' then [] else [c]) + Words(s)
  {
    assert ([c] + s)[1..] == s;
  }

  /** The sanitiser before the length cut: no forbidden character, no whitespace. */
  function Cleaned(text: string): (r: string)
    ensures Safe(r)
    ensures forall i :: 0 <= i < |r| ==> r[i] == '_' || r[i] in text
    ensures Safe(text) ==> r == text
  {
    var allowed := RemoveForbidden(text);
    var stripped := Strip(allowed);
    var cleaned := CollapseSpace(stripped);
    CleanedSafe(allowed, stripped, cleaned);
    cleaned
  }

  /** Nothing but forbidden characters and whitespace: the texts that leave no name. */
  predicate Blank(text: string) {
    forall i :: 0 <= i < |text| ==> IsForbidden(text[i]) || IsSpace(text[i])
  }

  /** Cleaning keeps every word character that is not forbidden, in order, and adds none. */
  lemma CleanedWords(text: string)
    ensures Words(Cleaned(text)) == Words(RemoveForbidden(text))
  {
    var allowed := RemoveForbidden(text);
    var stripped := Strip(allowed);
    StripKeepsWords(allowed);
    CollapseSpaceKeepsWords(stripped);
  }

  lemma StripKeepsWords(s: string)
    ensures Words(Strip(s)) == Words(s)
  {
    var r := Strip(s);
    var k := LeadingSpace(s);
    var pre, post := s[..k], s[k + |r|..];
    assert s == pre + r + post;
    WordsOfSpaces(pre);
    WordsOfSpaces(post);
    WordsAppend(pre, r);
    WordsAppend(pre + r, post);
  }

  /** Cleaning leaves nothing exactly when the text is blank. */
  lemma CleanedEmpty(text: string)
    ensures Cleaned(text) == [] <==> Blank(text)
  {
    var allowed := RemoveForbidden(text);
    var stripped := Strip(allowed);
    CollapseSpaceEmpty(stripped);
    StripEmpty(allowed);
    if Blank(text) {
      forall i | 0 <= i < |allowed|
        ensures IsSpace(allowed[i])
      {
        var j :| 0 <= j < |text| && text[j] == allowed[i];
      }
    } else {
      var j :| 0 <= j < |text| && !IsForbidden(text[j]) && !IsSpace(text[j]);
      RemoveForbiddenCounts(text);
      assert text[j] in multiset(text);
      assert text[j] in multiset(allowed);
      var i :| 0 <= i < |allowed| && allowed[i] == text[j];
    }
  }

  lemma CollapseSpaceEmpty(s: string)
    ensures CollapseSpace(s) == [] <==> s == []
  {
  }

  lemma StripEmpty(s: string)
    ensures Strip(s) == [] <==> forall i :: 0 <= i < |s| ==> IsSpace(s[i])
  {
    var r := Strip(s);
    var k := LeadingSpace(s);
    if r != [] {
      assert s[k] == r[0];
    }
  }

  lemma CleanedSafe(allowed: string, stripped: string, cleaned: string)
    requires forall i :: 0 <= i < |allowed| ==> !IsForbidden(allowed[i])
    requires forall i :: 0 <= i < |stripped| ==> stripped[i] in allowed
    requires forall i :: 0 <= i < |cleaned| ==> cleaned[i] == '_' || cleaned[i] in stripped
    requires NoSpace(cleaned)
    ensures Safe(cleaned)
  {
    forall i | 0 <= i < |cleaned|
      ensures !IsForbidden(cleaned[i])
    {
      if cleaned[i] != '_' {
        assert cleaned[i] in allowed;
      }
    }
  }

  /**
   * `sanitize_filename(text, max_length)`: forbidden characters deleted,
   * surrounding whitespace stripped, inner whitespace runs turned into `_`,
   * cut to `maxLength` characters (a negative bound cuts from the end, as a
   * Python slice does), and `"export"` when nothing is left.
   */
  function SanitizeFilename(text: string, maxLength: int): (r: string)
    ensures r != []
    ensures Safe(r)
    ensures 0 <= maxLength ==> |r| <= maxLength || r == Fallback
    ensures r == Fallback || forall i :: 0 <= i < |r| ==> r[i] == '_' || r[i] in text
  {
    var cleaned := Cleaned(text);
    var cut := Slice(cleaned, 0, maxLength);
    assert forall i :: 0 <= i < |cut| ==> cut[i] in cleaned;
    FallbackSafe();
    if cut == [] then Fallback else cut
  }

  /**
   * Which name comes out: `"export"` in particular for a blank text or a
   * zero bound; otherwise, for a positive bound, the cleaned text cut to at most
   * `maxLength` characters.
   */
  lemma SanitizeFilenameCut(text: string, maxLength: int)
    ensures var r := SanitizeFilename(text, maxLength);
      r == Fallback || r == Slice(Cleaned(text), 0, maxLength)
    ensures Blank(text) || maxLength == 0 ==> SanitizeFilename(text, maxLength) == Fallback
    ensures 0 < maxLength && !Blank(text) ==>
      var r, c := SanitizeFilename(text, maxLength), Cleaned(text);
      |r| == (if maxLength < |c| then maxLength else |c|) && r == c[..|r|]
  {
    CleanedEmpty(text);
  }

  /** A name that is already safe and short enough passes through unchanged. */
  lemma SanitizeSafe(s: string, maxLength: int)
    requires s != [] && Safe(s) && |s| <= maxLength
    ensures SanitizeFilename(s, maxLength) == s
  {
    assert Cleaned(s) == s;
    assert Slice(s, 0, maxLength) == s;
  }

  /** Sanitising twice gives what sanitising once gives, for any bound that admits the fallback name (50 among them). */
  lemma SanitizeIdempotent(text: string, maxLength: int)
    requires |Fallback| <= maxLength
    ensures SanitizeFilename(SanitizeFilename(text, maxLength), maxLength) == SanitizeFilename(text, maxLength)
  {
    var once := SanitizeFilename(text, maxLength);
    FallbackSafe();
    assert |once| <= maxLength;
    SanitizeSafe(once, maxLength);
  }

  /** The fields of the `datetime.now()` value that `strftime("%Y%m%d_%H%M%S")` prints. */
  datatype DateTime = DateTime(year: nat, month: nat, day: nat, hour: nat, minute: nat, second: nat)

  predicate ValidDateTime(d: DateTime) {
    1000 <= d.year <= 9999 && 1 <= d.month <= 12 && 1 <= d.day <= 31
    && d.hour < 24 && d.minute < 60 && d.second < 60
  }

  function Pow10(k: nat): (r: nat)
    ensures 1 <= r
  {
    if k == 0 then 1 else 10 * Pow10(k - 1)
  }

  predicate IsDigit(c: char) {
    '0' <= c <= '9'
  }

  /** The last `width` decimal digits of `n`, zero-padded. */
  function Digits(n: nat, width: nat): (r: string)
    ensures |r| == width
    ensures forall i :: 0 <= i < |r| ==> IsDigit(r[i])
  {
    if width == 0 then [] else Digits(n / 10, width - 1) + [('0' as int + n % 10) as char]
  }

  /** The number a string of decimal digits spells. */
  function ReadDigits(s: string): nat
    requires forall i :: 0 <= i < |s| ==> IsDigit(s[i])
  {
    if s == [] then 0
    else
      var last := s[|s| - 1];
      assert IsDigit(last);
      ReadDigits(s[..|s| - 1]) * 10 + (last as int - '0' as int)
  }

  lemma {:induction false} ReadDigitsOfDigits(n: nat, width: nat)
    requires n < Pow10(width)
    ensures ReadDigits(Digits(n, width)) == n
  {
    if width > 0 {
      ReadDigitsOfDigits(n / 10, width - 1);
      var r := Digits(n, width);
      assert r[..|r| - 1] == Digits(n / 10, width - 1);
    }
  }

  /** `strftime("%Y%m%d_%H%M%S")`. */
  function FormatTimestamp(d: DateTime): (r: string)
    ensures |r| == 15 && r[8] == '_'
  {
    Digits(d.year, 4) + Digits(d.month, 2) + Digits(d.day, 2) + "_"
    + Digits(d.hour, 2) + Digits(d.minute, 2) + Digits(d.second, 2)
  }

  /** Reads a `%Y%m%d_%H%M%S` stamp back; `None` when `s` does not have that shape. */
  function ParseTimestamp(s: string): Option<DateTime> {
    if |s| == 15 && s[8] == '_' && (forall i :: 0 <= i < 15 && i != 8 ==> IsDigit(s[i])) then
      Some(DateTime(ReadDigits(s[0..4]), ReadDigits(s[4..6]), ReadDigits(s[6..8]),
                    ReadDigits(s[9..11]), ReadDigits(s[11..13]), ReadDigits(s[13..15])))
    else
      None
  }

  /** A formatted stamp reads back as the time it was made from. */
  lemma TimestampRoundTrip(d: DateTime)
    requires ValidDateTime(d)
    ensures ParseTimestamp(FormatTimestamp(d)) == Some(d)
  {
    var y, mo, dd := Digits(d.year, 4), Digits(d.month, 2), Digits(d.day, 2);
    var h, mi, se := Digits(d.hour, 2), Digits(d.minute, 2), Digits(d.second, 2);
    assert FormatTimestamp(d) == y + mo + dd + "_" + h + mi + se;
    ParseSeven(y, mo, dd, h, mi, se);
    assert Pow10(2) == 100 && Pow10(4) == 10000;
    ReadDigitsOfDigits(d.year, 4);
    ReadDigitsOfDigits(d.month, 2);
    ReadDigitsOfDigits(d.day, 2);
    ReadDigitsOfDigits(d.hour, 2);
    ReadDigitsOfDigits(d.minute, 2);
    ReadDigitsOfDigits(d.second, 2);
  }

  /** A stamp assembled from six digit fields reads back field by field. */
  lemma ParseSeven(y: string, mo: string, dd: string, h: string, mi: string, se: string)
    requires |y| == 4 && |mo| == 2 && |dd| == 2 && |h| == 2 && |mi| == 2 && |se| == 2
    requires forall i :: 0 <= i < 4 ==> IsDigit(y[i])
    requires forall i :: 0 <= i < 2 ==> IsDigit(mo[i]) && IsDigit(dd[i]) && IsDigit(h[i])
    requires forall i :: 0 <= i < 2 ==> IsDigit(mi[i]) && IsDigit(se[i])
    ensures ParseTimestamp(y + mo + dd + "_" + h + mi + se)
      == Some(DateTime(ReadDigits(y), ReadDigits(mo), ReadDigits(dd), ReadDigits(h), ReadDigits(mi), ReadDigits(se)))
  {
    var s := y + mo + dd + "_" + h + mi + se;
    SplitSeven(y, mo, dd, h, mi, se);
    StampDigits(s);
    ParseStamp(s);
  }

  /** A string of stamp shape reads back as the numbers its six fields spell. */
  lemma ParseStamp(s: string)
    requires |s| == 15 && s[8] == '_' && forall i :: 0 <= i < 15 && i != 8 ==> IsDigit(s[i])
    ensures ParseTimestamp(s) == Some(DateTime(ReadDigits(s[0..4]), ReadDigits(s[4..6]), ReadDigits(s[6..8]),
                                               ReadDigits(s[9..11]), ReadDigits(s[11..13]), ReadDigits(s[13..15])))
  {
  }

  /** Every position of a stamp but the separator is a digit when every field is. */
  lemma StampDigits(s: string)
    requires |s| == 15
    requires forall i :: 0 <= i < 4 ==> IsDigit(s[0..4][i])
    requires forall i :: 0 <= i < 2 ==> IsDigit(s[4..6][i]) && IsDigit(s[6..8][i]) && IsDigit(s[9..11][i])
    requires forall i :: 0 <= i < 2 ==> IsDigit(s[11..13][i]) && IsDigit(s[13..15][i])
    ensures forall i :: 0 <= i < 15 && i != 8 ==> IsDigit(s[i])
  {
    forall i | 0 <= i < 15 && i != 8
      ensures IsDigit(s[i])
    {
      if i < 4 {
        assert s[i] == s[0..4][i];
      } else if i < 6 {
        assert s[i] == s[4..6][i - 4];
      } else if i < 8 {
        assert s[i] == s[6..8][i - 6];
      } else if i < 11 {
        assert s[i] == s[9..11][i - 9];
      } else if i < 13 {
        assert s[i] == s[11..13][i - 11];
      } else {
        assert s[i] == s[13..15][i - 13];
      }
    }
  }

  lemma SplitSeven(y: string, mo: string, dd: string, h: string, mi: string, se: string)
    requires |y| == 4 && |mo| == 2 && |dd| == 2 && |h| == 2 && |mi| == 2 && |se| == 2
    ensures var s := y + mo + dd + "_" + h + mi + se;
      s[0..4] == y && s[4..6] == mo && s[6..8] == dd && s[8] == '_'
      && s[9..11] == h && s[11..13] == mi && s[13..15] == se
  {
  }

  /**
   * The shape of an export name: a safe stem of at most 50 characters, an
   * underscore, a stamp that reads back as `now`, a dot and the format.
   */
  predicate ExportNameShape(name: string, now: DateTime, format: string) {
    var stem := |name| - |format| - 17;
    0 < stem <= DefaultMaxLength
    && Safe(name[..stem]) && name[stem] == '_'
    && ParseTimestamp(name[stem + 1..stem + 16]) == Some(now)
    && name[stem + 16..] == "." + format
  }

  /**
   * `generate_export_filename(banner_text, fmt)`, with the clock reading
   * passed in as `now`: every such name has the shape above, whatever the
   * banner text.
   */
  function ExportFileName(bannerText: string, now: DateTime, format: string): (r: string)
    ensures ValidDateTime(now) ==> ExportNameShape(r, now, format)
    ensures |format| + 17 <= |r| && r[..|r| - |format| - 17] == SanitizeFilename(bannerText, DefaultMaxLength)
  {
    var base := SanitizeFilename(bannerText, DefaultMaxLength);
    NameParts(base, now, format);
    SplitName(base, FormatTimestamp(now), format);
    base + "_" + FormatTimestamp(now) + "." + format
  }

  lemma NameParts(base: string, now: DateTime, format: string)
    requires 0 < |base| <= DefaultMaxLength && Safe(base)
    ensures ValidDateTime(now) ==> ExportNameShape(base + "_" + FormatTimestamp(now) + "." + format, now, format)
  {
    SplitName(base, FormatTimestamp(now), format);
    if ValidDateTime(now) {
      TimestampRoundTrip(now);
    }
  }

  lemma SplitName(base: string, stamp: string, format: string)
    requires |stamp| == 15
    ensures var name := base + "_" + stamp + "." + format;
      var stem := |base|;
      stem == |name| - |format| - 17
      && name[..stem] == base && name[stem] == '_'
      && name[stem + 1..stem + 16] == stamp && name[stem + 16..] == "." + format
  {
  }
}
