/**
 * Parsing of the gas-price text shown in a station's side bar into a
 * GasPrices record (GasPriceChecker.parse_prices and GasPrices in
 * helpfuncs.py).
 *
 * The source splits the text on whitespace, keeps the tokens that hold a
 * '$' or a '-' anywhere, strips the '$' characters at both ends of each
 * kept token, and spreads the resulting list into the four-parameter
 * GasPrices constructor; any count other than four raises a TypeError,
 * which is modelled as a Failure.
 */
module Prices {
  import opened Wrappers
  import opened PyStrings

  /** The four prices, by position, as the strings the page shows. */
  datatype GasPrices = GasPrices(diesel: string, regular: string, midgrade: string, premium: string)

  /** The TypeError raised when the number of kept tokens is not the constructor's four. */
  datatype ParseError = WrongArity(given: nat)

  /** A token is kept when it holds a '$' or a '-' anywhere. */
  predicate Qualifies(token: string) {
    '$' in token || '-' in token
  }

  /** The list comprehension over the tokens: keep the qualifying ones, strip '$' from both ends. */
  function Keep(tokens: seq<string>): seq<string> {
    if tokens == [] then []
    else (if Qualifies(tokens[0]) then [Strip(tokens[0], '$')] else []) + Keep(tokens[1..])
  }

  /** The list of price strings that parse_prices hands to the constructor. */
  function PriceTokens(text: string): seq<string> {
    Keep(Words(text))
  }

  /** parse_prices: the four kept tokens, in order, as diesel, regular, midgrade and premium. */
  function ParsePrices(text: string): Result<GasPrices, ParseError> {
    var ts := PriceTokens(text);
    if |ts| == 4 then Success(GasPrices(ts[0], ts[1], ts[2], ts[3]))
    else Failure(WrongArity(|ts|))
  }

  /** Filtering keeps relative order: the tokens of a + b give the kept tokens of a, then those of b. */
  lemma {:induction false} KeepAppend(a: seq<string>, b: seq<string>)
    ensures Keep(a + b) == Keep(a) + Keep(b)
  {
    if a == [] {
      assert a + b == b;
    } else {
      assert (a + b)[0] == a[0];
      assert (a + b)[1..] == a[1..] + b;
      KeepAppend(a[1..], b);
    }
  }

  /** A price string is there exactly when a qualifying token it is stripped from is there. */
  lemma {:induction false} KeepMembers(tokens: seq<string>, t: string)
    ensures t in Keep(tokens) <==> exists k :: 0 <= k < |tokens| && Qualifies(tokens[k]) && t == Strip(tokens[k], '$')
  {
    if tokens != [] {
      KeepMembers(tokens[1..], t);
      if t in Keep(tokens[1..]) {
        var k :| 0 <= k < |tokens[1..]| && Qualifies(tokens[1..][k]) && t == Strip(tokens[1..][k], '$');
        assert tokens[k + 1] == tokens[1..][k];
      }
      if exists k :: 0 <= k < |tokens| && Qualifies(tokens[k]) && t == Strip(tokens[k], '$') {
        var k :| 0 <= k < |tokens| && Qualifies(tokens[k]) && t == Strip(tokens[k], '$');
        if k > 0 {
          assert tokens[1..][k - 1] == tokens[k];
        }
      }
    }
  }

  /** The number of tokens that hold a '$' or a '-'. */
  function CountQualifying(tokens: seq<string>): nat {
    if tokens == [] then 0 else (if Qualifies(tokens[0]) then 1 else 0) + CountQualifying(tokens[1..])
  }

  /** One price string per qualifying token: nothing is dropped, merged or added. */
  lemma {:induction false} KeepLength(tokens: seq<string>)
    ensures |Keep(tokens)| == CountQualifying(tokens)
  {
    if tokens != [] {
      KeepLength(tokens[1..]);
    }
  }

  /** Every price string has no '$' at either end. */
  lemma PriceTokensStripped(text: string)
    ensures forall t :: t in PriceTokens(text) ==> t == [] || (t[0] != '$' && t[|t| - 1] != '$')
  {
    forall t | t in PriceTokens(text)
      ensures t == [] || (t[0] != '$' && t[|t| - 1] != '$')
    {
      KeepMembers(Words(text), t);
    }
  }

  /** A tag (a token with neither '$' nor '-') contributes nothing, wherever it stands. */
  lemma LabelIgnored(before: seq<string>, tag: string, after: seq<string>)
    requires !Qualifies(tag)
    ensures Keep(before + [tag] + after) == Keep(before + after)
  {
    KeepAppend(before + [tag], after);
    KeepAppend(before, [tag]);
    KeepAppend(before, after);
    assert Keep([tag]) == [];
  }

  /** Exact arity: a record comes out exactly when four tokens qualify, filled by position; otherwise the count is reported. */
  lemma ParsePricesArity(text: string)
    ensures ParsePrices(text).Success? <==> CountQualifying(Words(text)) == 4
    ensures ParsePrices(text).Success? ==>
      var ts := PriceTokens(text);
      ParsePrices(text).value == GasPrices(ts[0], ts[1], ts[2], ts[3])
    ensures ParsePrices(text).Failure? ==> ParsePrices(text).error == WrongArity(CountQualifying(Words(text)))
  {
    KeepLength(Words(text));
  }

  lemma KeepCons(w: string, rest: seq<string>)
    ensures Keep([w] + rest) == (if Qualifies(w) then [Strip(w, '$')] else []) + Keep(rest)
  {
    assert ([w] + rest)[1..] == rest;
  }

  /**
   * The shape of a station's side-bar price text: each grade's label
   * followed by its '$'-prefixed price.
   */
  function Listing(labels: seq<string>, prices: seq<string>): seq<string>
    requires |labels| == |prices|
  {
    if labels == [] then [] else [labels[0], "$" + prices[0]] + Listing(labels[1..], prices[1..])
  }

  /** A price with no '$' at either end comes back unchanged from stripping its '$' prefix. */
  lemma StripDollarPrefix(p: string)
    requires p == [] || (p[0] != '$' && p[|p| - 1] != '$')
    ensures Strip("$" + p, '$') == p
  {
    var s := "$" + p;
    assert s[1..] == p;
    assert LeadCount(p, '$') == 0;
    assert LeadCount(s, '$') == 1;
    assert TrailCount(p, '$') == 0;
  }

  predicate IsLabel(w: string) {
    w != [] && NoSpace(w) && !Qualifies(w)
  }

  predicate IsPrice(p: string) {
    NoSpace(p) && (p == [] || (p[0] != '$' && p[|p| - 1] != '$'))
  }

  lemma {:induction false} KeepListing(labels: seq<string>, prices: seq<string>)
    requires |labels| == |prices|
    requires forall k :: 0 <= k < |labels| ==> IsLabel(labels[k])
    requires forall k :: 0 <= k < |prices| ==> IsPrice(prices[k])
    ensures Keep(Listing(labels, prices)) == prices
  {
    if labels != [] {
      var rest := Listing(labels[1..], prices[1..]);
      var price := "$" + prices[0];
      assert IsLabel(labels[0]) && IsPrice(prices[0]);
      assert Listing(labels, prices) == [labels[0]] + ([price] + rest);
      assert Qualifies(price) by { assert price[0] == '$'; }
      StripDollarPrefix(prices[0]);
      KeepCons(labels[0], [price] + rest);
      KeepCons(price, rest);
      KeepListing(labels[1..], prices[1..]);
      assert prices == [prices[0]] + prices[1..];
    }
  }

  lemma {:induction false} ListingWords(labels: seq<string>, prices: seq<string>)
    requires |labels| == |prices|
    requires forall k :: 0 <= k < |labels| ==> IsLabel(labels[k])
    requires forall k :: 0 <= k < |prices| ==> IsPrice(prices[k])
    ensures |Listing(labels, prices)| == 2 * |labels|
    ensures forall k :: 0 <= k < |Listing(labels, prices)| ==> Listing(labels, prices)[k] != [] && NoSpace(Listing(labels, prices)[k])
  {
    if labels != [] {
      ListingWords(labels[1..], prices[1..]);
      var price := "$" + prices[0];
      assert IsLabel(labels[0]) && IsPrice(prices[0]);
      assert forall i :: 1 <= i < |price| ==> price[i] == prices[0][i - 1];
    }
  }

  /**
   * Reading a listing, one label or price per line: a record comes out,
   * filled by position, exactly when four grades are listed; otherwise the
   * number of prices found is reported.
   */
  lemma ParseListing(labels: seq<string>, prices: seq<string>, space: char)
    requires |labels| == |prices|
    requires IsSpace(space)
    requires forall k :: 0 <= k < |labels| ==> IsLabel(labels[k])
    requires forall k :: 0 <= k < |prices| ==> IsPrice(prices[k])
    ensures ParsePrices(Join(Listing(labels, prices), [space])) ==
      if |prices| == 4 then Success(GasPrices(prices[0], prices[1], prices[2], prices[3]))
      else Failure(WrongArity(|prices|))
  {
    ListingWords(labels, prices);
    WordsOfJoin(Listing(labels, prices), space);
    KeepListing(labels, prices);
  }
}
