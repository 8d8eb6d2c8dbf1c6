/** Picking through the cache: what the ring and the table answer, end to end, while eligibility flips under them. */
module CachedPicks {
  import opened HashRing
  import opened VersionedCaches
  import MaglevTables
  import Maglev
  import MaglevLookup

  /** Which backends a pick accepts. */
  function Accepts(eligible: set<string>, excluded: seq<string>): string -> bool {
    id => id !in excluded && id in eligible
  }

  /** A pick that begins with no refresh under way, and that none overlaps, answers as a ring would that was built on
      the spot from those backends of the set last applied that are eligible now and not excluded: whatever races left
      in the cache, and however eligibility has flipped since the cached ring was built. */
  lemma PickAnswersAsRebuilt(s: State, before: seq<Event>, p: nat, during: seq<Event>,
                             hash: (string, nat) -> nat, target: nat, excluded: seq<string>)
    requires Init(s) && Run(s, before).writer.Idle? && LeavesAlone(during, p)
    ensures var t := Run(s, before);
            var u := Run(Step(t, Start(p)), during);
            var accept := Accepts(u.eligible, excluded);
            p in u.picks && (u.picks[p].reader.Using? ==>
              Answer(Ring(u.picks[p].reader.tag.inputs, hash), target, accept) ==
              Direct(Ring(AcceptedMembers(accept, t.applied), hash), target))
  {
    var t := Run(s, before);
    var u := Run(Step(t, Start(p)), during);
    PickAfterApply(s, before, p, during);
    PickRefinesRebuiltRing(t.applied, hash, target, Accepts(u.eligible, excluded));
  }

  /** Such a pick from the Maglev table finds nobody exactly when no backend of the set last applied that is eligible
      now and not excluded has been left a slot; whom it finds is such a backend, of positive weight, and the first such
      from the key's own slot on; and it answers as it did when more were eligible, unless the backend it then found has
      dropped out since. */
  lemma TablePickAnswers(s: State, before: seq<Event>, p: nat, during: seq<Event>,
                         h: Maglev.Hash, hash: nat, excluded: seq<string>, more: set<string>)
    requires Init(s) && Run(s, before).writer.Idle? && LeavesAlone(during, p)
    requires |Maglev.Weighted(Run(s, before).applied)| < MaglevTables.FREE
    ensures var t := Run(s, before);
            var u := Run(Step(t, Start(p)), during);
            p in u.picks && (u.picks[p].reader.Using? ==>
              var table := Maglev.FreshTable(u.picks[p].reader.tag.inputs, h, MaglevTables.TABLE_SIZE);
              && MaglevLookup.Usable(table)
              && var accept, wider := Accepts(u.eligible, excluded), Accepts(more, excluded);
              var r, earlier := MaglevLookup.Lookup(table, hash, accept), MaglevLookup.Lookup(table, hash, wider);
              && MaglevLookup.RightAnswer(r, t.applied, accept)
              && (table.entries != [] ==> MaglevLookup.FirstFrom(table, hash, accept, r))
              && (u.eligible <= more && earlier.Some? && accept(earlier.value) ==> r == earlier))
  {
    var t := Run(s, before);
    var u := Run(Step(t, Start(p)), during);
    var accept := Accepts(u.eligible, excluded);
    PickAfterApply(s, before, p, during);
    MaglevLookup.FreshLookup(t.applied, h, hash, accept);
    var table := Maglev.FreshTable(t.applied, h, MaglevTables.TABLE_SIZE);
    if table.backends != [] {
      MaglevLookup.LookupIsFirst(table, hash, accept);
      if u.eligible <= more {
        MaglevLookup.OnlyLostKeysMove(table, Accepts(more, excluded), accept, hash % |table.entries|, 0);
      }
    }
  }
}
