/** The two-decimal coordinate keys the dashboard groups locations by:
    `"lat, lon"` (comma and space) for the dropdown, the offline resolution
    table and the export script, and `"lat,lon"` (comma only) for the location
    dictionary. */
module Coords {
  import opened Base
  import opened Text
  import opened Js

  /** The two separators in use. */
  datatype Separator = CommaSpace | CommaOnly

  function SeparatorText(sep: Separator): string {
    match sep
    case CommaSpace => ", "
    case CommaOnly => ","
  }

  /** `${lat.toFixed(2)}<sep>${lon.toFixed(2)}`. */
  function PairKey(lat: Number, lon: Number, sep: Separator): string {
    ToFixed2(lat) + SeparatorText(sep) + ToFixed2(lon)
  }

  /** Reads a key back into signed hundredths of a degree; `None` if the text
      is not two `-?\d+\.\d{2}` numbers joined by the separator. */
  function ParsePairKey(s: string, sep: Separator): Option<(int, int)> {
    var parts := Split(s, ',');
    if |parts| != 2 then None
    else
      var first := parts[0];
      var second := if sep.CommaSpace? && |parts[1]| > 0 && parts[1][0] == ' ' then parts[1][1..]
                    else if sep.CommaSpace? then "" else parts[1];
      if IsFixed2Text(first) && IsFixed2Text(second) then Some((Fixed2Value(first), Fixed2Value(second)))
      else None
  }

  /** `/^-?\d+\.\d{2},-?\d+\.\d{2}$/` (the dictionary key pattern), and its
      comma-space counterpart. */
  predicate IsPairKey(s: string, sep: Separator) {
    ParsePairKey(s, sep).Some?
  }

  lemma Fixed2HasNoComma(s: string)
    requires IsFixed2Text(s)
    ensures forall i :: 0 <= i < |s| ==> s[i] != ','
  {
    var body := if |s| > 0 && s[0] == '-' then s[1..] else s;
    forall i | 0 <= i < |s| ensures s[i] != ',' {
      var k := if |s| > 0 && s[0] == '-' then i - 1 else i;
      if k >= 0 {
        assert body[k] == s[i];
        if k < |body| - 3 {
          assert body[..|body| - 3][k] == body[k];
        } else if k > |body| - 3 {
          assert body[|body| - 2..][k - (|body| - 2)] == body[k];
        }
      }
    }
  }

  /** Splitting two comma-free texts joined by the separator finds them again. */
  lemma SplitJoined(a: string, b: string, sep: Separator)
    requires forall i :: 0 <= i < |a| ==> a[i] != ','
    requires forall i :: 0 <= i < |b| ==> b[i] != ','
    ensures Split(a + SeparatorText(sep) + b, ',') == [a, if sep.CommaSpace? then " " + b else b]
  {
    var tail := if sep.CommaSpace? then " " + b else b;
    assert a + SeparatorText(sep) + b == a + [','] + tail;
    SplitAtSeparator(a, ',', tail);
    forall i | 0 <= i < |tail| ensures tail[i] != ',' {
      if sep.CommaSpace? && i > 0 {
        assert tail[i] == b[i - 1];
      }
    }
    SplitNoSeparator(tail, ',');
  }

  /** Two two-decimal texts joined by the separator parse back to their values. */
  lemma ParseJoined(a: string, b: string, sep: Separator)
    requires IsFixed2Text(a) && IsFixed2Text(b)
    ensures ParsePairKey(a + SeparatorText(sep) + b, sep) == Some((Fixed2Value(a), Fixed2Value(b)))
  {
    Fixed2HasNoComma(a);
    Fixed2HasNoComma(b);
    SplitJoined(a, b, sep);
    if sep.CommaSpace? {
      assert (" " + b)[1..] == b;
    }
  }

  /** A key written from two finite numbers reads back as their rounded
      hundredths, so two finite points share a key exactly when both
      coordinates round to the same hundredth. */
  lemma PairKeyRoundTrip(lat: Number, lon: Number, sep: Separator)
    requires lat.Fin? && lon.Fin?
    ensures ParsePairKey(PairKey(lat, lon, sep), sep) == Some((Hundredths(lat), Hundredths(lon)))
  {
    ToFixed2RoundTrip(lat);
    ToFixed2RoundTrip(lon);
    ParseJoined(ToFixed2(lat), ToFixed2(lon), sep);
  }

  /** Every key written from finite numbers has the key shape. */
  lemma PairKeyShape(lat: Number, lon: Number, sep: Separator)
    requires lat.Fin? && lon.Fin?
    ensures IsPairKey(PairKey(lat, lon, sep), sep)
  {
    PairKeyRoundTrip(lat, lon, sep);
  }

  /** The two separators never produce the same key. */
  lemma SeparatorsDiffer(lat: Number, lon: Number, lat2: Number, lon2: Number)
    requires lat.Fin? && lon.Fin? && lat2.Fin? && lon2.Fin?
    ensures PairKey(lat, lon, CommaSpace) != PairKey(lat2, lon2, CommaOnly)
  {
    var a, b := ToFixed2(lat), ToFixed2(lon);
    var a2, b2 := ToFixed2(lat2), ToFixed2(lon2);
    ToFixed2Shape(lat);
    ToFixed2Shape(lon);
    ToFixed2Shape(lat2);
    ToFixed2Shape(lon2);
    Fixed2HasNoComma(a);
    Fixed2HasNoComma(b);
    Fixed2HasNoComma(a2);
    Fixed2HasNoComma(b2);
    SplitJoined(a, b, CommaSpace);
    SplitJoined(a2, b2, CommaOnly);
    if PairKey(lat, lon, CommaSpace) == PairKey(lat2, lon2, CommaOnly) {
      assert " " + b == b2;
      Fixed2StartsWithDigitOrMinus(b2);
      assert false;
    }
  }

  lemma Fixed2StartsWithDigitOrMinus(s: string)
    requires IsFixed2Text(s)
    ensures |s| > 0 && (s[0] == '-' || IsDigit(s[0]))
  {
    if s[0] != '-' {
      assert s[..|s| - 3][0] == s[0];
    }
  }
}
