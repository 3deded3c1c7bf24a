/**
 * The per-visitor session store of the page (`st.session_state`): reviews
 * kept per place, a board of recommendations with the newest first, the chat
 * transcript with the assistant, and the map position chosen by a search.
 */
module Session {
  import opened Options
  import opened Seqs
  import Places

  /** One entry of the recommendation board: `{"place": …, "desc": …}`. */
  datatype Recommendation = Recommendation(place: string, desc: string)

  datatype Role = User | Assistant

  /** One chat message: `{"role": …, "content": …}`. */
  datatype ChatMessage = ChatMessage(role: Role, content: string)

  /** The marker a successful search leaves on the map. */
  datatype Marker = Marker(lat: Places.Coord, lng: Places.Coord, name: string)

  /** The map centre of a fresh session: the centre of Berlin. */
  const BerlinCenter: (Places.Coord, Places.Coord) := (52.5200, 13.4050)

  /**
   * Choosing a place to review: the place gets an (empty) review list when
   * it has none, and nothing else changes.
   */
  function WithPlace(reviews: map<string, seq<string>>, place: string): (r: map<string, seq<string>>)
    ensures r.Keys == reviews.Keys + {place}
    ensures r[place] == Lookup(reviews, place, [])
    ensures forall p :: p in reviews ==> r[p] == reviews[p]
  {
    if place in reviews then reviews else reviews[place := []]
  }

  /** Posting a review: it goes to the end of that place's list; other places are untouched. */
  function WithReview(reviews: map<string, seq<string>>, place: string, text: string): (r: map<string, seq<string>>)
    requires place in reviews
    ensures r.Keys == reviews.Keys
    ensures r[place] == reviews[place] + [text]
    ensures forall p :: p in reviews && p != place ==> r[p] == reviews[p]
  {
    reviews[place := reviews[place] + [text]]
  }

  /**
   * Deleting review `i` of a place: exactly that entry leaves that place's
   * list, the rest keep their order, and other places are untouched.
   */
  function WithoutReview(reviews: map<string, seq<string>>, place: string, i: nat): (r: map<string, seq<string>>)
    requires place in reviews && i < |reviews[place]|
    ensures r.Keys == reviews.Keys
    ensures |r[place]| == |reviews[place]| - 1
    ensures forall k :: 0 <= k < i ==> r[place][k] == reviews[place][k]
    ensures forall k :: i <= k < |r[place]| ==> r[place][k] == reviews[place][k + 1]
    ensures multiset(r[place]) == multiset(reviews[place]) - multiset{reviews[place][i]}
    ensures forall p :: p in reviews && p != place ==> r[p] == reviews[p]
  {
    reviews[place := RemoveAt(reviews[place], i)]
  }

  /** Deleting the review just posted gives back the reviews as they were. */
  lemma DeleteUndoesPost(reviews: map<string, seq<string>>, place: string, text: string)
    requires place in reviews
    ensures var posted := WithReview(reviews, place, text);
            WithoutReview(posted, place, |reviews[place]|) == reviews
  {
    var posted := WithReview(reviews, place, text);
    var back := WithoutReview(posted, place, |reviews[place]|);
    assert back[place] == reviews[place];
    assert back.Keys == reviews.Keys;
    forall p | p in reviews ensures back[p] == reviews[p] {
    }
  }

  /**
   * Posting to one place and deleting from another commute: the two lists
   * live apart.
   */
  lemma PlacesIndependent(reviews: map<string, seq<string>>, a: string, text: string, b: string, i: nat)
    requires a in reviews && b in reviews && a != b && i < |reviews[b]|
    ensures WithoutReview(WithReview(reviews, a, text), b, i)
            == WithReview(WithoutReview(reviews, b, i), a, text)
  {
    var x := WithoutReview(WithReview(reviews, a, text), b, i);
    var y := WithReview(WithoutReview(reviews, b, i), a, text);
    assert x.Keys == y.Keys;
    forall p | p in x ensures x[p] == y[p] {
    }
  }

  /** Deleting the recommendation just posted at the front gives back the board as it was. */
  lemma DeleteUndoesRecommend(board: seq<Recommendation>, rec: Recommendation)
    ensures RemoveAt([rec] + board, 0) == board
  {
    var r := RemoveAt([rec] + board, 0);
    assert forall k :: 0 <= k < |r| ==> r[k] == board[k];
  }

  /** One chat turn: the question, then the answer, after everything said before. */
  function WithTurn(messages: seq<ChatMessage>, prompt: string, reply: string): (r: seq<ChatMessage>)
    ensures |r| == |messages| + 2
    ensures r[..|messages|] == messages
    ensures r[|messages|] == ChatMessage(User, prompt)
    ensures r[|messages| + 1] == ChatMessage(Assistant, reply)
  {
    messages + [ChatMessage(User, prompt), ChatMessage(Assistant, reply)]
  }

  /** The transcript alternates: every question is followed by its answer. */
  ghost predicate Alternating(messages: seq<ChatMessage>)
  {
    && |messages| % 2 == 0
    && forall k :: 0 <= k < |messages| ==> messages[k].role == (if k % 2 == 0 then User else Assistant)
  }

  /** A chat turn keeps the transcript alternating. */
  lemma TurnKeepsAlternating(messages: seq<ChatMessage>, prompt: string, reply: string)
    requires Alternating(messages)
    ensures Alternating(WithTurn(messages, prompt, reply))
  {
    var r := WithTurn(messages, prompt, reply);
    forall k | 0 <= k < |r| ensures r[k].role == (if k % 2 == 0 then User else Assistant) {
      if k < |messages| {
        assert r[k] == r[..|messages|][k];
      }
    }
  }

  /** The state the page keeps between reruns. */
  class SessionState {
    var reviews: map<string, seq<string>>
    var recommendations: seq<Recommendation>
    var messages: seq<ChatMessage>
    var mapCenter: (Places.Coord, Places.Coord)
    var searchMarker: Option<Marker>

    ghost predicate Valid()
      reads this
    {
      Alternating(messages)
    }

    /** The first visit: no reviews, no recommendations, no chat, the map on Berlin, no marker. */
    constructor ()
      ensures Valid()
      ensures reviews == map[] && recommendations == [] && messages == []
      ensures mapCenter == BerlinCenter && searchMarker == None
    {
      reviews := map[];
      recommendations := [];
      messages := [];
      mapCenter := BerlinCenter;
      searchMarker := None;
    }

    /** Choosing a place to review; an empty choice does nothing. */
    method SelectPlace(place: string)
      requires Valid()
      modifies this`reviews
      ensures Valid()
      ensures reviews == if place == [] then old(reviews) else WithPlace(old(reviews), place)
    {
      if place != [] {
        if place !in reviews {
          reviews := reviews[place := []];
        }
      }
    }

    /** Submitting the review form for the place on screen (which selection has created). */
    method AddReview(place: string, text: string)
      requires Valid() && place in reviews
      modifies this`reviews
      ensures Valid()
      ensures reviews == WithReview(old(reviews), place, text)
    {
      reviews := reviews[place := reviews[place] + [text]];
    }

    /** The delete button of review `i`, one of the indices the page enumerates. */
    method DeleteReview(place: string, i: nat)
      requires Valid() && place in reviews && i < |reviews[place]|
      modifies this`reviews
      ensures Valid()
      ensures reviews == WithoutReview(old(reviews), place, i)
    {
      reviews := reviews[place := RemoveAt(reviews[place], i)];
    }

    /** Submitting the recommendation form: the new entry goes to the front of the board. */
    method AddRecommendation(place: string, desc: string)
      requires Valid()
      modifies this`recommendations
      ensures Valid()
      ensures |recommendations| == |old(recommendations)| + 1
      ensures recommendations[0] == Recommendation(place, desc)
      ensures recommendations[1..] == old(recommendations)
    {
      recommendations := [Recommendation(place, desc)] + recommendations;
    }

    /** The delete button of recommendation `i`. */
    method DeleteRecommendation(i: nat)
      requires Valid() && i < |recommendations|
      modifies this`recommendations
      ensures Valid()
      ensures recommendations == RemoveAt(old(recommendations), i)
    {
      recommendations := RemoveAt(recommendations, i);
    }

    /**
     * A chat turn: the question is recorded, the assistant is asked, and its
     * reply (given here as `reply`) is recorded after it. An empty chat input
     * does nothing.
     */
    method ChatTurn(prompt: string, reply: string)
      requires Valid()
      modifies this`messages
      ensures Valid()
      ensures messages == if prompt == [] then old(messages) else WithTurn(old(messages), prompt, reply)
    {
      if prompt != [] {
        TurnKeepsAlternating(messages, prompt, reply);
        messages := messages + [ChatMessage(User, prompt)];
        messages := messages + [ChatMessage(Assistant, reply)];
      }
    }

    /**
     * The outcome of a place search: when the geocoder found the place at a
     * position whose latitude and longitude are both non-zero, the map moves
     * there and the marker is set; otherwise nothing changes.
     */
    method ApplySearch(found: Option<Marker>)
      requires Valid()
      modifies this`mapCenter, this`searchMarker
      ensures Valid()
      ensures if found.Some? && found.value.lat != 0.0 && found.value.lng != 0.0
              then mapCenter == (found.value.lat, found.value.lng) && searchMarker == found
              else mapCenter == old(mapCenter) && searchMarker == old(searchMarker)
    {
      if found.Some? && found.value.lat != 0.0 && found.value.lng != 0.0 {
        mapCenter := (found.value.lat, found.value.lng);
        searchMarker := found;
      }
    }
  }
}
