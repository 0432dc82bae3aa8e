/**
 * The online recommender: a catalog of jokes, a matrix-factorisation model kept up to date
 * with new ratings, and the choice between a random unseen joke (fewer than 10 ratings) and a
 * model recommendation (10 or more).
 */
module Recommender {
  import opened Wrappers
  import opened JokeIds
  import opened RatingTables
  import opened ContentMatrix
  import opened Factorization

  datatype Error =
    | NoUnseenJokes             // random.choice on an empty list
    | NoRecommendation          // .item() on a result that is not exactly one row
    | MalformedId(id: string)   // int() cannot read the identifier
    | UnknownItem(id: string)   // the parsed index is not a row of the joke table

  datatype Joke = Joke(id: string, text: string)

  /** Users with fewer ratings than this get a random joke. */
  const ColdStartLimit: nat := 10
  /** Learning rate and epoch count of every update_users call. */
  const UpdateLr: real := 0.001
  const UpdateEpochs: nat := 20

  /** `jokes_df["jokes"][int(id.replace("joke_", "")) - 1]`, with the errors that lookup raises. */
  function JokeFor(texts: seq<string>, id: string): Result<Joke, Error> {
    match ParseJokeIndex(id)
    case None => Failure(MalformedId(id))
    case Some(k) => if 0 <= k < |texts| then Success(Joke(id, texts[k])) else Failure(UnknownItem(id))
  }

  /** The identifier of row n gives that row's text when the row exists, and UnknownItem otherwise. */
  lemma JokeForRow(texts: seq<string>, n: nat)
    ensures 1 <= n <= |texts| ==> JokeFor(texts, JokeId(n)) == Success(Joke(JokeId(n), texts[n - 1]))
    ensures n == 0 || n > |texts| ==> JokeFor(texts, JokeId(n)) == Failure(UnknownItem(JokeId(n)))
  {
    JokeIdRoundTrip(n);
  }

  /** Every catalog identifier finds its joke: the row its number names. */
  lemma JokeForCatalog(texts: seq<string>, id: string)
    requires id in Catalog(|texts|)
    ensures exists n :: 1 <= n <= |texts| && id == JokeId(n) && JokeFor(texts, id) == Success(Joke(id, texts[n - 1]))
  {
    CatalogIndex(id, |texts|);
    var n := JokeIndexOf(id) + 1;
    JokeForRow(texts, n);
  }

  /** `num_jokes_rated`: 0 for an empty table, otherwise the user's row count. */
  function RatedCount(user: string, added: seq<Rating>): nat {
    if added == [] then 0 else CountUser(user, added)
  }

  predicate IsColdStart(user: string, added: seq<Rating>) {
    RatedCount(user, added) < ColdStartLimit
  }

  /** The cold-start branch is taken exactly when the user has fewer than 10 rows in the table. */
  lemma ColdStartIff(user: string, added: seq<Rating>)
    ensures IsColdStart(user, added) <==> |RowsOf(user, added)| < 10
  {
    RowsOfCount(user, added);
  }

  /** `unheard_jokes`: the catalog, less the items of the user's rows when the table is not empty. */
  function Unseen(catalog: set<string>, user: string, ratings: seq<Rating>): set<string> {
    if ratings == [] then catalog else catalog - ItemSet(RowsOf(user, ratings))
  }

  /** A joke is unseen exactly when it is in the catalog and no row of this user names it. */
  lemma UnseenMembers(catalog: set<string>, user: string, ratings: seq<Rating>)
    ensures forall id :: id in Unseen(catalog, user, ratings) <==>
      id in catalog && forall k :: 0 <= k < |ratings| && ratings[k].user == user ==> ratings[k].item != id
  {
    UserItems(user, ratings);
  }

  /** Rows of other users never shrink a user's unseen set. */
  lemma OtherUsersDoNotShrink(catalog: set<string>, user: string, ratings: seq<Rating>, others: seq<Rating>)
    requires forall k :: 0 <= k < |others| ==> others[k].user != user
    ensures Unseen(catalog, user, ratings + others) == Unseen(catalog, user, ratings)
  {
    UsersInConcat(ratings, others, {user});
    UsersInMembers(others, {user});
    UsersInNone(others, {user});
    assert RowsOf(user, ratings + others) == RowsOf(user, ratings);
    if others == [] {
      assert ratings + others == ratings;
    }
  }

  /** The unseen set is empty exactly when the user has a row for every joke of the catalog. */
  lemma UnseenEmptyIff(catalog: set<string>, user: string, ratings: seq<Rating>)
    ensures Unseen(catalog, user, ratings) == {} <==>
      forall id :: id in catalog ==> exists k :: 0 <= k < |ratings| && ratings[k].user == user && ratings[k].item == id
  {
    UnseenMembers(catalog, user, ratings);
    if Unseen(catalog, user, ratings) == {} {
      forall id | id in catalog
        ensures exists k :: 0 <= k < |ratings| && ratings[k].user == user && ratings[k].item == id
      {
        assert id !in Unseen(catalog, user, ratings);
      }
    } else {
      var id :| id in Unseen(catalog, user, ratings);
      assert !exists k :: 0 <= k < |ratings| && ratings[k].user == user && ratings[k].item == id;
    }
  }

  /** What the cold-start branch may answer: NoUnseenJokes exactly when nothing is unseen, and
      otherwise some unseen joke_n together with the text of row n. */
  predicate ColdStartAnswer(texts: seq<string>, user: string, ratings: seq<Rating>, r: Result<Joke, Error>) {
    var unseen := Unseen(Catalog(|texts|), user, ratings);
    (r.Failure? <==> unseen == {}) &&
    (r.Failure? ==> r.error == NoUnseenJokes) &&
    (r.Success? ==>
      r.value.id in unseen && exists n :: 1 <= n <= |texts| && r.value == Joke(JokeId(n), texts[n - 1]))
  }

  /** The warm branch's answer to the list `recommend` returned: `best["item_id"].item()`, then the lookup. */
  function WarmAnswer(texts: seq<string>, ranked: seq<string>): Result<Joke, Error> {
    if |ranked| == 1 then JokeFor(texts, ranked[0]) else Failure(NoRecommendation)
  }

  /** A warm answer names the single recommended item and carries its row's text; it is an
      error when the library returns no item or several. */
  lemma WarmAnswerMeaning(texts: seq<string>, ranked: seq<string>)
    ensures |ranked| != 1 ==> WarmAnswer(texts, ranked) == Failure(NoRecommendation)
    ensures WarmAnswer(texts, ranked).Success? ==>
      |ranked| == 1 && WarmAnswer(texts, ranked).value.id == ranked[0] &&
      0 <= JokeIndexOf(ranked[0]) < |texts| && WarmAnswer(texts, ranked).value.text == texts[JokeIndexOf(ranked[0])]
    ensures |ranked| == 1 && ranked[0] in Catalog(|texts|) ==> WarmAnswer(texts, ranked).Success?
  {
    if |ranked| == 1 && ranked[0] in Catalog(|texts|) {
      JokeForCatalog(texts, ranked[0]);
    }
  }

  class JokeRecommender {
    /** The "jokes" column of the joke table. */
    const jokes: seq<string>
    const numJokes: nat
    const allJokes: set<string>
    /** The deserialised model; the object is shared and updated in place. */
    const mf: FactorizationModel

    ghost predicate Valid() {
      numJokes == |jokes| && allJokes == Catalog(numJokes)
    }

    /** Builds the catalog from the joke texts and, when there are ratings the stored model has
        not seen yet, applies them all in one update. */
    constructor (texts: seq<string>, currentRatings: seq<Rating>, loaded: FactorizationModel)
      modifies loaded
      ensures Valid() && jokes == texts && mf == loaded
      ensures |currentRatings| == 0 ==> loaded.updates == old(loaded.updates)
      ensures |currentRatings| > 0 ==> Extends(old(loaded.updates), loaded.updates, currentRatings, UpdateLr, UpdateEpochs)
    {
      jokes := texts;
      numJokes := |texts|;
      allJokes := set i | 1 <= i <= |texts| :: JokeId(i);
      mf := loaded;
      new;
      if |currentRatings| > 0 {
        loaded.UpdateUsers(currentRatings, UpdateLr, UpdateEpochs);
      }
    }

    /** The virtual-user table: for each word, for each joke in row order, one row
        (word, joke_{j+1}, 10) when the word occurs in the joke's lower-cased text. */
    method SaveContentMatrix(commonWords: seq<string>) returns (contentRatings: seq<Rating>)
      requires Valid()
      ensures contentRatings == ContentRatings(commonWords, jokes)
    {
      contentRatings := [];
      var i := 0;
      while i < |commonWords|
        invariant 0 <= i <= |commonWords|
        invariant contentRatings == ContentRatings(commonWords[..i], jokes)
      {
        var word := commonWords[i];
        var jokeNum := 0;
        while jokeNum < numJokes
          invariant 0 <= jokeNum <= numJokes
          invariant contentRatings == ContentRatings(commonWords[..i], jokes) + WordRows(word, jokes, jokeNum)
        {
          if Matches(word, jokes[jokeNum]) {
            contentRatings := contentRatings + [PseudoRow(word, jokeNum)];
          }
          jokeNum := jokeNum + 1;
        }
        assert commonWords[..i + 1][..i] == commonWords[..i];
        i := i + 1;
      }
      assert commonWords[..i] == commonWords;
    }

    /** Cold start: some joke of the catalog this user has no row for; nothing changes. */
    method RandomNewJoke(user: string, ratings: seq<Rating>) returns (r: Result<Joke, Error>)
      requires Valid()
      ensures ColdStartAnswer(jokes, user, ratings, r)
    {
      var unheardJokes := allJokes;
      if ratings != [] {
        var itemsKnown := ItemSet(RowsOf(user, ratings));
        unheardJokes := unheardJokes - itemsKnown;
      }
      if unheardJokes == {} {
        return Failure(NoUnseenJokes);
      }
      var jokeId :| jokeId in unheardJokes;
      JokeForCatalog(jokes, jokeId);
      r := JokeFor(jokes, jokeId);
    }

    /** Warm path: retrain this user's factors on their rows, then take the library's first
        recommendation given the items they already rated. */
    method RecommendedJoke(user: string, ratings: seq<Rating>) returns (r: Result<Joke, Error>)
      requires Valid()
      modifies mf
      ensures Extends(old(mf.updates), mf.updates, RowsOf(user, ratings), UpdateLr, UpdateEpochs)
      ensures r == WarmAnswer(jokes, mf.Recommend(user, Items(RowsOf(user, ratings)), 1, false))
    {
      var userRatings := RowsOf(user, ratings);
      mf.UpdateUsers(userRatings, UpdateLr, UpdateEpochs);
      var itemsKnown := Items(userRatings);
      var best := mf.Recommend(user, itemsKnown, 1, false);
      if |best| != 1 {
        return Failure(NoRecommendation);
      }
      r := JokeFor(jokes, best[0]);
    }

    /** The joke to show next: a random unseen one below 10 ratings, a recommended one from 10 on. */
    method GetJoke(userName: string, addedRatings: seq<Rating>) returns (r: Result<Joke, Error>)
      requires Valid()
      modifies mf
      ensures IsColdStart(userName, addedRatings) ==>
        mf.updates == old(mf.updates) && ColdStartAnswer(jokes, userName, addedRatings, r)
      ensures !IsColdStart(userName, addedRatings) ==>
        Extends(old(mf.updates), mf.updates, RowsOf(userName, addedRatings), UpdateLr, UpdateEpochs) &&
        r == WarmAnswer(jokes, mf.Recommend(userName, Items(RowsOf(userName, addedRatings)), 1, false))
    {
      var numJokesRated := RatedCount(userName, addedRatings);
      if numJokesRated < ColdStartLimit {
        r := RandomNewJoke(userName, addedRatings);
      } else {
        r := RecommendedJoke(userName, addedRatings);
      }
    }
  }
}
