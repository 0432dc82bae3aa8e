/**
 * The matrix-factorisation model, seen from outside. Its internals belong to an external
 * library; the recommender only loads it, feeds it batches of ratings through `update_users`
 * and asks it for a recommendation. The model state is therefore abstract: the snapshot it was
 * loaded from and the log of every update call since, each with the library's own random draw.
 */
module Factorization {
  import opened RatingTables

  /** One `update_users` call: the rows passed, the learning rate, the epoch count, and the
      library's random initialisation of new user factors, which the caller does not choose. */
  datatype UpdateCall = UpdateCall(rows: seq<Rating>, lr: real, epochs: nat, draw: nat)

  /** What `recommend` answers, as a function of the loaded snapshot, the updates applied since,
      and the call's arguments (user, items_known, amount, include_user). */
  type Ranker = (nat, seq<UpdateCall>, string, seq<string>, nat, bool) -> seq<string>

  /** after is before with one more update call, made with these rows, lr and epochs. */
  predicate Extends(before: seq<UpdateCall>, after: seq<UpdateCall>, rows: seq<Rating>, lr: real, epochs: nat) {
    |after| == |before| + 1 && after[..|before|] == before &&
    after[|before|].rows == rows && after[|before|].lr == lr && after[|before|].epochs == epochs
  }

  class FactorizationModel {
    /** Which stored snapshot was deserialised. */
    const artifact: nat
    const ranker: Ranker
    /** Every update applied since loading, oldest first. */
    var updates: seq<UpdateCall>

    /** `pickle.load`: the snapshot as stored, with no update applied yet. */
    constructor Load(artifact: nat, ranker: Ranker)
      ensures this.artifact == artifact && this.ranker == ranker && updates == []
    {
      this.artifact := artifact;
      this.ranker := ranker;
      updates := [];
    }

    /** `update_users(X, y, lr, n_epochs)`: retrains the factors of the users in the rows. */
    method UpdateUsers(rows: seq<Rating>, lr: real, epochs: nat)
      modifies this
      ensures Extends(old(updates), updates, rows, lr, epochs)
    {
      var draw: nat :| true;
      updates := updates + [UpdateCall(rows, lr, epochs, draw)];
    }

    /** `recommend(user, items_known, amount, include_user)`: the item ids the library ranks first. */
    function Recommend(user: string, itemsKnown: seq<string>, amount: nat, includeUser: bool): seq<string>
      reads this
    {
      ranker(artifact, updates, user, itemsKnown, amount, includeUser)
    }
  }
}
