/**
 * The place fetch of the page (`get_osm_places`): an ordered, first-match
 * cuisine classifier, the cuisine selection with its "all" sentinel, and the
 * loop that turns the elements of a place-service response into place
 * records. The network request itself is not modelled: its outcome is the
 * `response` parameter, None when the request, the JSON decoding or the
 * lookup of `elements` failed.
 */
module Places {
  import opened Options
  import opened Seqs
  import opened Text

  /** A latitude or longitude; carried through, never computed with. */
  type Coord = real

  // The three categories the fetch knows.
  const Restaurant := "restaurant"
  const Hotel := "hotel"
  const Tourism := "tourism"

  // Place-type labels: five for restaurants, one for everything else, and
  // the "all" entry of the cuisine selection.
  const Korean := "한식"
  const Western := "양식"
  const Asian := "아시안"
  const Cafe := "카페"
  const General := "일반/기타"
  const Other := "기타"
  const All := "전체"

  const WesternKeywords: seq<string> := ["burger", "pizza", "italian", "french", "german", "american", "steak"]
  const AsianKeywords: seq<string> := ["chinese", "vietnamese", "thai", "japanese", "sushi", "asian", "indian"]
  const CafeKeywords: seq<string> := ["coffee", "cafe", "cake"]

  /** The cuisine tag a restaurant without one is given. */
  const DefaultCuisine := "general"

  const RestaurantLabels: set<string> := {Korean, Western, Asian, Cafe, General}

  /**
   * The if/elif chain over a lower-cased cuisine tag. Every tag gets exactly
   * one of the five restaurant labels.
   */
  function Classify(cuisine: string): (kind: string)
    ensures kind in RestaurantLabels
  {
    if Contains(cuisine, "korean") then Korean
    else if ContainsAny(cuisine, WesternKeywords) then Western
    else if ContainsAny(cuisine, AsianKeywords) then Asian
    else if ContainsAny(cuisine, CafeKeywords) then Cafe
    else General
  }

  /** One classification rule: a label and the keywords that select it. */
  datatype Rule = Rule(keywords: seq<string>, placeType: string)

  /** The classification rules in the order they are tried. */
  const Rules: seq<Rule> := [
    Rule(["korean"], Korean),
    Rule(WesternKeywords, Western),
    Rule(AsianKeywords, Asian),
    Rule(CafeKeywords, Cafe)
  ]

  /** Reference classifier: the label of the first rule that matches, else `fallback`. */
  function FirstMatch(rules: seq<Rule>, cuisine: string, fallback: string): string
  {
    if rules == [] then fallback
    else if ContainsAny(cuisine, rules[0].keywords) then rules[0].placeType
    else FirstMatch(rules[1..], cuisine, fallback)
  }

  /** First match wins: rule `k` decides when it matches and no earlier rule does. */
  lemma {:induction false} FirstMatchWins(rules: seq<Rule>, cuisine: string, fallback: string, k: nat)
    requires k < |rules| && ContainsAny(cuisine, rules[k].keywords)
    requires forall j :: 0 <= j < k ==> !ContainsAny(cuisine, rules[j].keywords)
    ensures FirstMatch(rules, cuisine, fallback) == rules[k].placeType
  {
    if k > 0 {
      assert !ContainsAny(cuisine, rules[0].keywords);
      assert forall j :: 0 <= j < k - 1 ==> rules[1..][j] == rules[j + 1];
      FirstMatchWins(rules[1..], cuisine, fallback, k - 1);
    }
  }

  /** With no rule matching, the reference classifier falls back. */
  lemma {:induction false} FirstMatchFallback(rules: seq<Rule>, cuisine: string, fallback: string)
    requires forall j :: 0 <= j < |rules| ==> !ContainsAny(cuisine, rules[j].keywords)
    ensures FirstMatch(rules, cuisine, fallback) == fallback
  {
    if rules != [] {
      assert forall j :: 0 <= j < |rules| - 1 ==> rules[1..][j] == rules[j + 1];
      FirstMatchFallback(rules[1..], cuisine, fallback);
    }
  }

  /** The if/elif chain is the ordered rule list read top to bottom. */
  lemma ClassifyIsFirstMatch(cuisine: string)
    ensures Classify(cuisine) == FirstMatch(Rules, cuisine, General)
  {
    assert ContainsAny(cuisine, Rules[0].keywords) == Contains(cuisine, "korean") by {
      assert forall k :: k in Rules[0].keywords <==> k == "korean";
    }
    assert Rules[1].keywords == WesternKeywords && Rules[2].keywords == AsianKeywords;
    assert Rules[3].keywords == CafeKeywords;
    if Contains(cuisine, "korean") {
      FirstMatchWins(Rules, cuisine, General, 0);
    } else if ContainsAny(cuisine, WesternKeywords) {
      FirstMatchWins(Rules, cuisine, General, 1);
    } else if ContainsAny(cuisine, AsianKeywords) {
      FirstMatchWins(Rules, cuisine, General, 2);
    } else if ContainsAny(cuisine, CafeKeywords) {
      FirstMatchWins(Rules, cuisine, General, 3);
    } else {
      FirstMatchFallback(Rules, cuisine, General);
    }
  }

  /**
   * "korean" beats every later keyword: a tag holding it is Korean whatever
   * else ("pizza", "sushi", "cafe") it also holds.
   */
  lemma KoreanWins(cuisine: string)
    requires Contains(cuisine, "korean")
    ensures Classify(cuisine) == Korean
  {
  }

  /** A tag with a Western keyword and no "korean" is Western, whatever Asian or cafe keyword follows. */
  lemma WesternBeforeAsianAndCafe(cuisine: string, keyword: string)
    requires !Contains(cuisine, "korean")
    requires keyword in WesternKeywords && Contains(cuisine, keyword)
    ensures Classify(cuisine) == Western
  {
  }

  /** The worked example: "vegan, italian, pizza" is Western. */
  lemma ClassifyExample()
    ensures Classify("vegan, italian, pizza") == Western
  {
    var tag := "vegan, italian, pizza";
    MissingCharRulesOut(tag, "korean", 'k');
    assert OccursAt(tag, "italian", 7);
    assert "italian" in WesternKeywords;
  }

  /** No keyword of `keys` occurs in `tag`: each keyword has a letter the tag lacks. */
  lemma NoKeywordIn(tag: string, keys: seq<string>, missing: seq<char>)
    requires |missing| == |keys|
    requires forall j :: 0 <= j < |keys| ==> missing[j] in keys[j] && missing[j] !in tag
    ensures !ContainsAny(tag, keys)
  {
    forall k | k in keys ensures !Contains(tag, k) {
      var j :| 0 <= j < |keys| && keys[j] == k;
      MissingCharRulesOut(tag, k, missing[j]);
    }
  }

  /** The default tag "general" matches no keyword: General/Other. */
  lemma DefaultIsGeneral()
    ensures Classify(DefaultCuisine) == General
  {
    var tag := DefaultCuisine;
    MissingCharRulesOut(tag, "korean", 'k');
    NoKeywordIn(tag, WesternKeywords, "bpifmms");
    NoKeywordIn(tag, AsianKeywords, "cvtjssi");
    NoKeywordIn(tag, CafeKeywords, "ccc");
  }

  /** One element of a place-service response: an optional tag dictionary and coordinates. */
  datatype Element = Element(tags: Option<map<string, string>>, lat: Option<Coord>, lon: Option<Coord>)

  /** One result record. */
  datatype Place = Place(name: string, lat: Coord, lng: Coord, category: string, cuisineType: string, rawCuisine: string)

  /** The element has a tag dictionary that holds a name. */
  predicate HasName(e: Element)
  {
    e.tags.Some? && "name" in e.tags.value
  }

  /** The lower-cased cuisine tag, "general" when there is none. */
  function RawCuisine(e: Element): string
    requires e.tags.Some?
  {
    Lower(Lookup(e.tags.value, "cuisine", DefaultCuisine))
  }

  /** The label a named element gets: classified for restaurants, "기타" otherwise. */
  function PlaceType(category: string, e: Element): string
    requires HasName(e)
  {
    if category == Restaurant then Classify(RawCuisine(e)) else Other
  }

  /**
   * A named restaurant without a cuisine tag is classified from the default
   * tag "general", which is already lower case: General/Other.
   */
  lemma DefaultElementIsGeneral(e: Element)
    requires HasName(e) && "cuisine" !in e.tags.value
    ensures RawCuisine(e) == DefaultCuisine
    ensures PlaceType(Restaurant, e) == General
  {
    DefaultIsGeneral();
    assert Lower(DefaultCuisine) == DefaultCuisine;
  }

  /** The cuisine selection restricts anything: present, non-empty and without "전체". */
  predicate FilterActive(cuisineFilter: Option<seq<string>>)
  {
    cuisineFilter.Some? && cuisineFilter.value != [] && All !in cuisineFilter.value
  }

  /** The element survives the name test and, for restaurants, the cuisine selection. */
  predicate Kept(category: string, cuisineFilter: Option<seq<string>>, e: Element)
  {
    && HasName(e)
    && (category == Restaurant && FilterActive(cuisineFilter) ==> PlaceType(category, e) in cuisineFilter.value)
  }

  /** A kept element without coordinates: building its record raises KeyError. */
  predicate Broken(category: string, cuisineFilter: Option<seq<string>>, e: Element)
  {
    Kept(category, cuisineFilter, e) && (e.lat.None? || e.lon.None?)
  }

  /** The record built for a kept element. */
  function ToPlace(category: string, cuisineFilter: Option<seq<string>>, e: Element): Place
    requires Kept(category, cuisineFilter, e) && !Broken(category, cuisineFilter, e)
  {
    Place(e.tags.value["name"], e.lat.value, e.lon.value, category, PlaceType(category, e), RawCuisine(e))
  }

  /**
   * What the loop over `elements` produces, element by element: the records
   * so far, or None once building a record raised.
   */
  function Collect(category: string, cuisineFilter: Option<seq<string>>, elements: seq<Element>): (r: Option<seq<Place>>)
    ensures r.Some? ==> |r.value| <= |elements|
  {
    if elements == [] then Some([])
    else
      var e := elements[|elements| - 1];
      match Collect(category, cuisineFilter, elements[..|elements| - 1])
      case None => None
      case Some(ps) =>
        if !Kept(category, cuisineFilter, e) then Some(ps)
        else if Broken(category, cuisineFilter, e) then None
        else Some(ps + [ToPlace(category, cuisineFilter, e)])
  }

  predicate IsKnownCategory(category: string)
  {
    category == Restaurant || category == Hotel || category == Tourism
  }

  /** The result of the fetch: [] for an unknown category or on any exception. */
  function OsmPlaces(category: string, response: Option<seq<Element>>, cuisineFilter: Option<seq<string>>): (r: seq<Place>)
    ensures !IsKnownCategory(category) || response.None? ==> r == []
    ensures response.Some? ==> |r| <= |response.value|
  {
    if !IsKnownCategory(category) || response.None? then []
    else Collect(category, cuisineFilter, response.value).GetOr([])
  }

  /** Once building a record raised, the rest of the loop never runs. */
  lemma {:induction false} CollectStaysFailed(category: string, cuisineFilter: Option<seq<string>>, elements: seq<Element>, k: nat)
    requires k <= |elements| && Collect(category, cuisineFilter, elements[..k]).None?
    ensures Collect(category, cuisineFilter, elements).None?
    decreases |elements| - k
  {
    if k < |elements| {
      assert elements[..k + 1][..k] == elements[..k];
      CollectStaysFailed(category, cuisineFilter, elements, k + 1);
    } else {
      assert elements[..k] == elements;
    }
  }

  /**
   * The result builder of the fetch. Elements without tags or without a name
   * are skipped, restaurants outside an active cuisine selection are skipped,
   * and a kept element without coordinates makes the whole fetch fall back to [].
   */
  method GetOsmPlaces(category: string, response: Option<seq<Element>>, cuisineFilter: Option<seq<string>>)
    returns (results: seq<Place>)
    ensures results == OsmPlaces(category, response, cuisineFilter)
  {
    if !IsKnownCategory(category) || response.None? {
      return [];
    }
    var elements := response.value;
    results := [];
    for i := 0 to |elements|
      invariant Collect(category, cuisineFilter, elements[..i]) == Some(results)
    {
      assert elements[..i + 1][..i] == elements[..i];
      var element := elements[i];
      if element.tags.Some? && "name" in element.tags.value {
        var tags := element.tags.value;
        var cuisine := Lower(Lookup(tags, "cuisine", DefaultCuisine));
        var name := tags["name"];
        var placeType := Other;
        if category == Restaurant {
          placeType := Classify(cuisine);
          if cuisineFilter.Some? && cuisineFilter.value != [] && All !in cuisineFilter.value {
            if placeType !in cuisineFilter.value {
              continue;
            }
          }
        }
        if element.lat.None? || element.lon.None? {
          CollectStaysFailed(category, cuisineFilter, elements, i + 1);
          return [];
        }
        results := results + [Place(name, element.lat.value, element.lon.value, category, placeType, cuisine)];
      }
    }
    assert elements[..|elements|] == elements;
  }

  /** The selection test as a value, for Filter and Positions. */
  function KeptBy(category: string, cuisineFilter: Option<seq<string>>): Element -> bool
  {
    e => Kept(category, cuisineFilter, e)
  }

  /** Reference definition of the loop: the kept elements, in input order. */
  function Selected(category: string, cuisineFilter: Option<seq<string>>, elements: seq<Element>): seq<Element>
  {
    Filter(KeptBy(category, cuisineFilter), elements)
  }

  predicate AnyBroken(category: string, cuisineFilter: Option<seq<string>>, elements: seq<Element>)
  {
    exists e | e in elements :: Broken(category, cuisineFilter, e)
  }

  /** One record per element of `chosen`. */
  function Records(category: string, cuisineFilter: Option<seq<string>>, chosen: seq<Element>): (ps: seq<Place>)
    requires forall e :: e in chosen ==> Kept(category, cuisineFilter, e) && !Broken(category, cuisineFilter, e)
    ensures |ps| == |chosen|
  {
    seq(|chosen|, k requires 0 <= k < |chosen| => ToPlace(category, cuisineFilter, chosen[k]))
  }

  /**
   * The loop agrees with the reference definition: it raises exactly when a
   * kept element lacks coordinates, and otherwise yields one record per kept
   * element, in input order.
   */
  lemma {:induction false} CollectIsFilterMap(category: string, cuisineFilter: Option<seq<string>>, elements: seq<Element>)
    ensures AnyBroken(category, cuisineFilter, elements) <==> Collect(category, cuisineFilter, elements).None?
    ensures !AnyBroken(category, cuisineFilter, elements) ==>
              Collect(category, cuisineFilter, elements) == Some(Records(category, cuisineFilter, Selected(category, cuisineFilter, elements)))
  {
    if elements != [] {
      var init := elements[..|elements| - 1];
      var e := elements[|elements| - 1];
      assert elements == init + [e];
      CollectIsFilterMap(category, cuisineFilter, init);
      assert AnyBroken(category, cuisineFilter, elements) <==>
             AnyBroken(category, cuisineFilter, init) || Broken(category, cuisineFilter, e);
      if !AnyBroken(category, cuisineFilter, elements) {
        var sel := Selected(category, cuisineFilter, elements);
        var selInit := Selected(category, cuisineFilter, init);
        assert sel == selInit + (if Kept(category, cuisineFilter, e) then [e] else []);
        var recs := Records(category, cuisineFilter, sel);
        var recsInit := Records(category, cuisineFilter, selInit);
        if Kept(category, cuisineFilter, e) {
          assert recs == recsInit + [ToPlace(category, cuisineFilter, e)];
        } else {
          assert recs == recsInit;
        }
      }
    }
  }

  /**
   * For a known category and a response whose kept elements all carry
   * coordinates, the result is one record per kept element, taken at
   * strictly increasing input positions (input order), and it is never
   * longer than the input. A kept element without coordinates empties it.
   */
  lemma OsmPlacesSelection(category: string, elements: seq<Element>, cuisineFilter: Option<seq<string>>)
    requires IsKnownCategory(category)
    ensures AnyBroken(category, cuisineFilter, elements) ==> OsmPlaces(category, Some(elements), cuisineFilter) == []
    ensures var r := OsmPlaces(category, Some(elements), cuisineFilter);
            var idx := Positions(KeptBy(category, cuisineFilter), elements);
            && |r| <= |elements|
            && (!AnyBroken(category, cuisineFilter, elements) ==>
                  && |r| == |idx|
                  && forall k :: 0 <= k < |r| ==>
                       && Kept(category, cuisineFilter, elements[idx[k]])
                       && !Broken(category, cuisineFilter, elements[idx[k]])
                       && r[k] == ToPlace(category, cuisineFilter, elements[idx[k]]))
  {
    CollectIsFilterMap(category, cuisineFilter, elements);
    if !AnyBroken(category, cuisineFilter, elements) {
      var keep := KeptBy(category, cuisineFilter);
      var chosen := Selected(category, cuisineFilter, elements);
      var r := Records(category, cuisineFilter, chosen);
      assert OsmPlaces(category, Some(elements), cuisineFilter) == r;
      FilterAtPositions(keep, elements);
      var idx := Positions(keep, elements);
      forall k | 0 <= k < |r|
        ensures && Kept(category, cuisineFilter, elements[idx[k]])
                && !Broken(category, cuisineFilter, elements[idx[k]])
                && r[k] == ToPlace(category, cuisineFilter, elements[idx[k]])
      {
        assert chosen[k] == elements[idx[k]];
      }
    }
  }

  /**
   * What comes out of the fetch: every record carries the requested category;
   * a restaurant record carries one of the five labels, and one inside the
   * cuisine selection when that selection is active; a hotel or tourism
   * record carries "기타". Every record was built from a named element of
   * the response.
   */
  lemma OsmPlacesRecords(category: string, response: Option<seq<Element>>, cuisineFilter: Option<seq<string>>)
    ensures forall p :: p in OsmPlaces(category, response, cuisineFilter) ==>
              && p.category == category
              && (category == Restaurant ==> p.cuisineType in RestaurantLabels)
              && (category == Restaurant && FilterActive(cuisineFilter) ==> p.cuisineType in cuisineFilter.value)
              && (category != Restaurant ==> p.cuisineType == Other)
    ensures forall p :: p in OsmPlaces(category, response, cuisineFilter) ==>
              exists e :: e in response.value && HasName(e) && p.name == e.tags.value["name"]
  {
    if IsKnownCategory(category) && response.Some? {
      var elements := response.value;
      CollectIsFilterMap(category, cuisineFilter, elements);
      if !AnyBroken(category, cuisineFilter, elements) {
        var chosen := Selected(category, cuisineFilter, elements);
        var r := Records(category, cuisineFilter, chosen);
        forall p | p in r
          ensures exists e :: e in elements && HasName(e) && p.name == e.tags.value["name"]
        {
          var k :| 0 <= k < |r| && r[k] == p;
          assert chosen[k] in chosen;
        }
      }
    }
  }

  /**
   * Completeness: when no kept element lacks coordinates, every named
   * element that passes the selection (for restaurants: whose label is in
   * an active selection) has its record in the result.
   */
  lemma OsmPlacesComplete(category: string, elements: seq<Element>, cuisineFilter: Option<seq<string>>, e: Element)
    requires IsKnownCategory(category) && !AnyBroken(category, cuisineFilter, elements)
    requires e in elements && HasName(e)
    requires category == Restaurant && FilterActive(cuisineFilter) ==> PlaceType(category, e) in cuisineFilter.value
    ensures ToPlace(category, cuisineFilter, e) in OsmPlaces(category, Some(elements), cuisineFilter)
  {
    CollectIsFilterMap(category, cuisineFilter, elements);
    var chosen := Selected(category, cuisineFilter, elements);
    assert e in chosen;
    var k :| 0 <= k < |chosen| && chosen[k] == e;
    assert Records(category, cuisineFilter, chosen)[k] == ToPlace(category, cuisineFilter, e);
  }

  /** Two selections that keep the same elements make the loop produce the same thing. */
  lemma {:induction false} CollectSameKept(category: string, f1: Option<seq<string>>, f2: Option<seq<string>>, elements: seq<Element>)
    requires forall e :: e in elements ==> Kept(category, f1, e) == Kept(category, f2, e)
    ensures Collect(category, f1, elements) == Collect(category, f2, elements)
  {
    if elements != [] {
      var init := elements[..|elements| - 1];
      assert forall e :: e in init ==> e in elements;
      CollectSameKept(category, f1, f2, init);
    }
  }

  /** The cuisine selection is never applied to hotels or tourism. */
  lemma SelectionIgnoredOutsideRestaurants(category: string, response: Option<seq<Element>>, f1: Option<seq<string>>, f2: Option<seq<string>>)
    requires category != Restaurant
    ensures OsmPlaces(category, response, f1) == OsmPlaces(category, response, f2)
  {
    if response.Some? {
      CollectSameKept(category, f1, f2, response.value);
    }
  }

  /** An empty or missing selection, or one holding "전체", drops no restaurant. */
  lemma InactiveSelectionKeepsAll(response: Option<seq<Element>>, cuisineFilter: Option<seq<string>>)
    requires !FilterActive(cuisineFilter)
    ensures OsmPlaces(Restaurant, response, cuisineFilter) == OsmPlaces(Restaurant, response, None)
  {
    if response.Some? {
      CollectSameKept(Restaurant, cuisineFilter, None, response.value);
    }
  }

  /**
   * A restaurant whose cuisine tag holds "korean" in any mix of ASCII
   * capitals is labelled Korean, whatever other keywords the tag holds.
   */
  lemma KoreanTagIsKorean(e: Element)
    requires HasName(e) && "cuisine" in e.tags.value
    requires ContainsIgnoringCase(e.tags.value["cuisine"], "korean")
    ensures PlaceType(Restaurant, e) == Korean
  {
    LowerKeepsMatch(e.tags.value["cuisine"], "korean");
    assert Lower("korean") == "korean";
  }
}
