/**
 * Extraction of the coordinate pair from a Google Maps place URL
 * (get_latlong in helpfuncs.py), kept as the two extracted strings.
 *
 * The source takes the text after the first "/@" and before any later
 * "/@", cuts it at the first "/data=!", splits it on ',' and unpacks
 * the first two fields. A URL without "/@" raises IndexError and a
 * segment without ',' raises ValueError; both are modelled as Failure.
 */
module GeoUrl {
  import opened Wrappers
  import opened PyStrings

  /** The latitude and longitude text, before any conversion to float. */
  datatype LatLong = LatLong(lat: string, lon: string)

  datatype GeoError =
    | MissingMarker   // split('/@')[1] does not exist
    | TooFewFields    // the two-name unpack got a single field

  const Marker: string := "/@"
  const DataMarker: string := "/data=!"
  const Comma: string := ","

  /** The text between the first "/@" and the next "/@", cut at its first "/data=!". */
  function Segment(url: string): string
    requires Contains(url, Marker)
  {
    SplitCount(url, Marker);
    Split(Split(url, Marker)[1], DataMarker)[0]
  }

  /** get_latlong without the float conversion. */
  function GetLatLong(url: string): Result<LatLong, GeoError> {
    var parts := Split(url, Marker);
    if |parts| < 2 then Failure(MissingMarker)
    else
      var fields := Split(Split(parts[1], DataMarker)[0], Comma);
      var firstTwo := fields[..if |fields| < 2 then |fields| else 2];
      if |firstTwo| < 2 then Failure(TooFewFields)
      else Success(LatLong(firstTwo[0], firstTwo[1]))
  }

  /** The missing-marker failure happens exactly when the URL holds no "/@". */
  lemma MissingMarkerIff(url: string)
    ensures GetLatLong(url) == Failure(MissingMarker) <==> !Contains(url, Marker)
  {
    SplitCount(url, Marker);
  }

  /** The too-few-fields failure happens exactly when the marker is there but its segment holds no ','. */
  lemma TooFewFieldsIff(url: string)
    ensures GetLatLong(url) == Failure(TooFewFields) <==> Contains(url, Marker) && ',' !in Segment(url)
  {
    SplitCount(url, Marker);
    if Contains(url, Marker) {
      SplitCount(Segment(url), Comma);
      ContainsChar(Segment(url), ',');
    }
  }

  /**
   * Where the segment sits in the URL: right after the first "/@"; it holds
   * neither "/@" nor "/data=!"; and what follows it is the end of the URL,
   * a later "/@" or a "/data=!".
   */
  lemma SegmentPlace(url: string)
    requires Contains(url, Marker)
    ensures var i := Find(url, Marker).value;
      var seg := Segment(url);
      && NoneBefore(url, Marker, i) && OccursAt(url, Marker, i)
      && PieceAtEither(url, Marker, DataMarker, i + |Marker|, seg)
      && !Contains(seg, Marker) && !Contains(seg, DataMarker)
  {
    SecondPieceCut(url, Marker, DataMarker);
  }

  /**
   * The fields on success: latitude and longitude hold no ',', and the
   * segment is the latitude, a ',', the longitude, then nothing or a
   * further ','-led field that is ignored.
   */
  lemma FieldsOnSuccess(url: string)
    requires GetLatLong(url).Success?
    ensures Contains(url, Marker)
    ensures var g := GetLatLong(url).value;
      && ',' !in g.lat && ',' !in g.lon
      && PieceAt(Segment(url), Comma, 0, g.lat + Comma + g.lon)
  {
    SplitCount(url, Marker);
    var seg := Segment(url);
    var fields := Split(seg, Comma);
    assert GetLatLong(url) == Success(LatLong(fields[0], fields[1]));
    FirstTwoPieces(seg, Comma);
    SplitPiecesFree(seg, Comma, 0);
    ContainsChar(fields[0], ',');
    ContainsChar(fields[1], ',');
  }

  /**
   * The converse: when the segment is a latitude without ',', a ',', a
   * longitude without ',', then nothing or a ','-led rest, get_latlong
   * returns exactly that latitude and longitude.
   */
  lemma LatLongOfSegment(url: string, lat: string, lon: string, rest: string)
    requires Contains(url, Marker)
    requires Segment(url) == lat + Comma + lon + rest
    requires ',' !in lat && ',' !in lon && (rest == [] || rest[0] == ',')
    ensures GetLatLong(url) == Success(LatLong(lat, lon))
  {
    SplitCount(url, Marker);
    assert Comma == [','];
    SplitOnChar(Segment(url), ',', lat, lon, rest);
  }
}
