/**
 Reading the requested page from the raw query string (`getQueries`), with the
 decimal conversion it relies on (`strconv.Atoi`, restricted to plain digits).
 */
module Queries {
  import opened Text
  import Paths

  /** The value of a decimal digit. */
  function DigitValue(c: char): nat
    requires IsDigit(c)
  {
    (c as int) - ('0' as int)
  }

  /** The value of a run of decimal digits, most significant first. */
  function DecimalValue(s: string): nat
    requires AllDigits(s)
  {
    if s == "" then 0 else DecimalValue(s[..|s| - 1]) * 10 + DigitValue(s[|s| - 1])
  }

  /**
   `strconv.Atoi` with its error ignored: the decimal value of a numeral, and 0 for
   anything else (the empty string, letters, signs).
   */
  function Atoi(s: string): (n: nat)
    ensures !IsNumeral(s) ==> n == 0
  {
    if IsNumeral(s) then DecimalValue(s) else 0
  }

  /** The decimal digit of a value below ten. */
  function DigitChar(d: nat): (c: char)
    requires d < 10
    ensures IsDigit(c) && DigitValue(c) == d
  {
    ('0' as int + d) as char
  }

  /** The shortest decimal spelling of `n`. */
  function Decimal(n: nat): (s: string)
    ensures IsNumeral(s)
    ensures n > 0 ==> s[0] != '0'
  {
    if n < 10 then [DigitChar(n)] else Decimal(n / 10) + [DigitChar(n % 10)]
  }

  /** Reading back a spelled-out number gives the number. */
  lemma {:induction false} AtoiDecimal(n: nat)
    ensures Atoi(Decimal(n)) == n
  {
    var s := Decimal(n);
    if n >= 10 {
      AtoiDecimal(n / 10);
      assert s[..|s| - 1] == Decimal(n / 10);
      assert DigitValue(s[|s| - 1]) == n % 10;
    } else {
      assert s == [DigitChar(n)] && s[..|s| - 1] == "";
      assert DecimalValue(s) == DecimalValue("") * 10 + DigitValue(s[0]);
    }
  }

  /**
   A page number the path grammar admits has a positive value. The guard only
   sees a `?page=` that is part of the request path itself (an encoded `%3F`), so
   this does not constrain the page read from the real query string.
   */
  lemma {:induction false} PageNumberIsPositive(s: string)
    requires Paths.IsPageNumber(s)
    ensures Atoi(s) >= 1
    decreases |s|
  {
    if |s| > 1 {
      var init := s[..|s| - 1];
      assert init[0] == s[0];
      assert AllDigits(init) by {
        forall i | 0 <= i < |init| ensures IsDigit(init[i]) { assert init[i] == s[i]; }
      }
      PageNumberIsPositive(init);
    } else {
      assert s[|s| - 1] == s[0];
    }
  }

  /** Every positive number is spelled as a page number. */
  lemma DecimalIsPageNumber(n: nat)
    requires n >= 1
    ensures Paths.IsPageNumber(Decimal(n))
  {
  }

  // ---------------------------------------------------------------------------
  // Query strings
  // ---------------------------------------------------------------------------

  /** The key of a query piece: what precedes its first `=`. */
  function Key(piece: string): string
  {
    Split(piece, '=')[0]
  }

  /** A piece Go can read the value of: it has a `=`, or its key is not `page`. */
  predicate Readable(piece: string) {
    Key(piece) == "page" ==> |Split(piece, '=')| >= 2
  }

  /**
   The value `getQueries` reads from a `page` piece: `currentQuery[1]`, the text
   between the first `=` and the next `=` (or the end).
   */
  function Value(piece: string): string
    requires Readable(piece) && Key(piece) == "page"
  {
    Split(piece, '=')[1]
  }

  /** `getQueries` can run on `rawQuery` without indexing past a piece's `=`-split. */
  predicate QueryReadable(rawQuery: string) {
    forall piece | piece in Split(rawQuery, '&') :: Readable(piece)
  }

  /** The page the last `page` piece of `pieces` asks for, or 0 when none does. */
  function LastPageValue(pieces: seq<string>): nat
    requires forall i :: 0 <= i < |pieces| ==> Readable(pieces[i])
  {
    if pieces == [] then 0
    else
      var last := pieces[|pieces| - 1];
      if Key(last) == "page" then Atoi(Value(last)) else LastPageValue(pieces[..|pieces| - 1])
  }

  /** The page `getQueries` returns for a readable raw query. */
  function QueryPage(rawQuery: string): nat
    requires QueryReadable(rawQuery)
  {
    LastPageValue(Split(rawQuery, '&'))
  }

  /** `getQueries(rawQuery)`: walks the `&`-pieces, overwriting `page` at every `page` key. */
  method GetQueries(rawQuery: string) returns (page: int)
    requires QueryReadable(rawQuery)
    ensures page == QueryPage(rawQuery)
  {
    var queries := Split(rawQuery, '&');
    ReadablePieces(rawQuery);
    page := 0;
    for i := 0 to |queries|
      invariant page == LastPageValue(queries[..i])
    {
      var v := queries[i];
      var currentQuery := Split(v, '=');
      LastPageStep(queries, i);
      if currentQuery[0] == "page" {
        page := Atoi(currentQuery[1]);
      }
    }
    assert queries[..|queries|] == queries;
  }

  /** A readable query is readable piece by piece. */
  lemma ReadablePieces(rawQuery: string)
    requires QueryReadable(rawQuery)
    ensures forall i :: 0 <= i < |Split(rawQuery, '&')| ==> Readable(Split(rawQuery, '&')[i])
  {
    var pieces := Split(rawQuery, '&');
    forall i | 0 <= i < |pieces| ensures Readable(pieces[i]) {
      assert pieces[i] in pieces;
    }
  }

  /** One more piece: a `page` piece sets the page, any other keeps it. */
  lemma LastPageStep(pieces: seq<string>, i: int)
    requires 0 <= i < |pieces| && forall k :: 0 <= k < |pieces| ==> Readable(pieces[k])
    ensures LastPageValue(pieces[..i + 1])
         == if Key(pieces[i]) == "page" then Atoi(Value(pieces[i])) else LastPageValue(pieces[..i])
  {
    assert pieces[..i + 1][..i] == pieces[..i];
  }

  /** The only piece Go cannot read is the bare key `page`. */
  lemma ReadableExactly(piece: string)
    ensures Readable(piece) <==> piece != "page"
  {
    var parts := Split(piece, '=');
    if |parts| == 1 {
      assert piece == parts[0];
    }
    if piece == "page" {
      SplitNoSeparator(piece, '=');
    }
  }

  /** A `page=N` piece, `N` free of `=` and `&`. */
  lemma PagePiece(n: string)
    requires '=' !in n
    ensures Readable("page=" + n) && Key("page=" + n) == "page" && Value("page=" + n) == n
  {
    SplitNoSeparator("page", '=');
    SplitAppend("page", '=', n);
    assert "page=" + n == "page" + ['='] + n;
  }

  /** A piece appended after the others: a `page` piece overrides them, any other key leaves the page unchanged. */
  lemma AppendPiece(rawQuery: string, piece: string)
    requires '&' !in piece && Readable(piece) && QueryReadable(rawQuery)
    ensures QueryReadable(rawQuery + "&" + piece)
    ensures QueryPage(rawQuery + "&" + piece)
         == if Key(piece) == "page" then Atoi(Value(piece)) else QueryPage(rawQuery)
  {
    SplitAppend(rawQuery, '&', piece);
    assert rawQuery + "&" + piece == rawQuery + ['&'] + piece;
    var pieces := Split(rawQuery, '&') + [piece];
    assert pieces[..|pieces| - 1] == Split(rawQuery, '&');
  }

  /** The query piece `page=N`, `N` spelled out. */
  function PageSetting(n: nat): string {
    "page=" + Decimal(n)
  }

  /** `page=N` holds no `&`, and its key and value are `page` and `N`. */
  lemma PageSettingPiece(n: nat)
    ensures '&' !in PageSetting(n) && Readable(PageSetting(n))
    ensures Key(PageSetting(n)) == "page" && Value(PageSetting(n)) == Decimal(n)
  {
    var d := Decimal(n);
    var piece := PageSetting(n);
    forall i | 0 <= i < |d| ensures d[i] != '=' && d[i] != '&' { assert IsDigit(d[i]); }
    forall i | 0 <= i < |piece| ensures piece[i] != '&' {
      if i >= 5 { assert piece[i] == d[i - 5]; }
    }
    PagePiece(d);
  }

  /** `page=N` alone asks for page `N`. */
  lemma SinglePageQuery(n: nat)
    ensures QueryReadable(PageSetting(n)) && QueryPage(PageSetting(n)) == n
  {
    PageSettingPiece(n);
    SplitNoSeparator(PageSetting(n), '&');
    AtoiDecimal(n);
  }

  /** `page=N` after any readable query selects page `N`: the last `page` key wins. */
  lemma LastPageKeyWins(rawQuery: string, n: nat)
    requires QueryReadable(rawQuery)
    ensures QueryReadable(rawQuery + "&" + PageSetting(n))
    ensures QueryPage(rawQuery + "&" + PageSetting(n)) == n
  {
    PageSettingPiece(n);
    AppendPiece(rawQuery, PageSetting(n));
    AtoiDecimal(n);
  }

  /** Without any `page` key the page is 0. */
  lemma {:induction false} NoPageKey(pieces: seq<string>)
    requires forall i :: 0 <= i < |pieces| ==> Key(pieces[i]) != "page"
    ensures forall i :: 0 <= i < |pieces| ==> Readable(pieces[i])
    ensures LastPageValue(pieces) == 0
  {
    if pieces != [] {
      NoPageKey(pieces[..|pieces| - 1]);
    }
  }
}
