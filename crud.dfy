/**
 * The write side of the ledger (`check_speaker`, `create_speaker`,
 * `delete_speaker`, `create_mention`, `delete_mention`). The database is an
 * object whose two tables the operations update in place; each operation is
 * one committed transaction, run one at a time.
 */
module Crud {
  import opened Wrappers
  import opened Models
  import Queries

  /** The mentions with their foreign key to `username` set to NULL, every other column kept. */
  function Orphan(ms: seq<Mention>, username: string): (r: seq<Mention>)
    ensures |r| == |ms|
    ensures forall i | 0 <= i < |ms| :: r[i].id == ms[i].id && r[i].date == ms[i].date
    ensures forall i | 0 <= i < |ms| :: r[i].speakerUsername == if ms[i].speakerUsername == Some(username) then None else ms[i].speakerUsername
  {
    seq(|ms|, i requires 0 <= i < |ms| =>
      if ms[i].speakerUsername == Some(username) then ms[i].(speakerUsername := None) else ms[i])
  }

  /**
   * Deleting a speaker orphans its mentions instead of deleting them: the
   * meter is unchanged, the speaker's group is empty and the NULL group
   * grows by what it held.
   */
  lemma OrphanCounts(ms: seq<Mention>, username: string)
    ensures Queries.Meter(Orphan(ms, username)) == Queries.Meter(ms)
    ensures Queries.Count(Orphan(ms, username), Some(username)) == 0
    ensures Queries.Count(Orphan(ms, username), None) == Queries.Count(ms, None) + Queries.Count(ms, Some(username))
    ensures forall k: Queries.Key :: k != None && k != Some(username) ==> Queries.Count(Orphan(ms, username), k) == Queries.Count(ms, k)
  {
    forall k: Queries.Key ensures Queries.Count(Orphan(ms, username), k) ==
      if k == Some(username) then 0
      else if k == None then Queries.Count(ms, None) + Queries.Count(ms, Some(username))
      else Queries.Count(ms, k)
    {
      OrphanCount(ms, username, k);
    }
  }

  lemma {:induction false} OrphanCount(ms: seq<Mention>, username: string, k: Queries.Key)
    ensures Queries.Count(Orphan(ms, username), k) ==
      if k == Some(username) then 0
      else if k == None then Queries.Count(ms, None) + Queries.Count(ms, Some(username))
      else Queries.Count(ms, k)
    decreases |ms|
  {
    if ms != [] {
      var n := |ms| - 1;
      OrphanCount(ms[..n], username, k);
      assert Orphan(ms, username)[..n] == Orphan(ms[..n], username);
    }
  }

  /** Position of the mention with this id, if there is one. */
  function FindId(ms: seq<Mention>, id: int): (r: Option<nat>)
    ensures r.Some? ==> r.value < |ms| && ms[r.value].id == id
    ensures r.None? ==> forall i | 0 <= i < |ms| :: ms[i].id != id
    decreases |ms|
  {
    if ms == [] then None
    else if ms[0].id == id then Some(0)
    else match FindId(ms[1..], id)
      case None => None
      case Some(i) => Some(i + 1)
  }

  /** The table without the row at position i. */
  function RemoveAt(ms: seq<Mention>, i: nat): (r: seq<Mention>)
    requires i < |ms|
    ensures |r| == |ms| - 1
    ensures multiset(r) + multiset{ms[i]} == multiset(ms)
    ensures forall j | 0 <= j < |r| :: r[j] == if j < i then ms[j] else ms[j + 1]
  {
    assert ms == ms[..i] + [ms[i]] + ms[i + 1..];
    ms[..i] + ms[i + 1..]
  }

  /**
   * Removing a row by a unique id keeps the other rows, and their ids
   * unique, and the removed id is gone.
   */
  lemma RemoveAtKeepsIds(ms: seq<Mention>, i: nat)
    requires i < |ms| && UniqueIds(ms)
    ensures UniqueIds(RemoveAt(ms, i))
    ensures forall j | 0 <= j < |RemoveAt(ms, i)| :: RemoveAt(ms, i)[j].id != ms[i].id
    ensures forall j | 0 <= j < |ms| && j != i :: ms[j] in RemoveAt(ms, i)
  {
    var r := RemoveAt(ms, i);
    assert forall j | 0 <= j < |r| :: r[j] == if j < i then ms[j] else ms[j + 1];
    forall j | 0 <= j < |ms| && j != i ensures ms[j] in r {
      if j < i { assert r[j] == ms[j]; } else { assert r[j - 1] == ms[j]; }
    }
  }

  class Ledger {
    /** The `speakers` table, keyed by its primary key. */
    var speakers: map<string, Speaker>
    /** The `masa_mentions` table, in row order. */
    var mentions: seq<Mention>

    /**
     * The schema's keys: usernames key their speaker rows and mention ids are
     * unique. There is no referential-integrity conjunct: SQLite does not
     * enforce foreign keys by default and deleting a speaker leaves its
     * mentions with a NULL key.
     */
    ghost predicate Valid()
      reads this
    {
      KeyedByUsername(speakers) && UniqueIds(mentions)
    }

    constructor ()
      ensures Valid() && speakers == map[] && mentions == []
    {
      speakers := map[];
      mentions := [];
    }

    /** `check_speaker`: the speaker row with this primary key, if any. */
    function CheckSpeaker(username: string): (r: Option<Speaker>)
      reads this
      requires Valid()
      ensures r.Some? <==> username in speakers
      ensures r.Some? ==> r.value == speakers[username] && r.value.username == username
    {
      if username in speakers then Some(speakers[username]) else None
    }

    /**
     * `create_speaker`: find or create. An existing row is returned and
     * nothing changes; otherwise exactly one row with this username is added.
     */
    method CreateSpeaker(username: string) returns (s: Speaker)
      requires Valid()
      modifies this
      ensures Valid()
      ensures s.username == username && username in speakers && speakers[username] == s
      ensures old(username in speakers) ==> speakers == old(speakers) && s == old(speakers[username])
      ensures old(username !in speakers) ==> speakers == old(speakers)[username := Speaker(username)]
      ensures mentions == old(mentions)
    {
      var found := CheckSpeaker(username);
      if found.Some? {
        return found.value;
      }
      s := Speaker(username);
      speakers := speakers[username := s];
    }

    /**
     * `delete_speaker`: the row is removed and returned when present, and the
     * ORM sets the foreign key of that speaker's mentions to NULL (no delete
     * cascade is declared, so the mentions remain and are still counted).
     * An absent username returns None and changes nothing.
     */
    method DeleteSpeaker(username: string) returns (r: Option<Speaker>)
      requires Valid()
      modifies this
      ensures Valid()
      ensures r == old(CheckSpeaker(username))
      ensures speakers == old(speakers) - {username}
      ensures r.Some? ==> mentions == Orphan(old(mentions), username)
      ensures r.None? ==> mentions == old(mentions)
      ensures Queries.Meter(mentions) == Queries.Meter(old(mentions))
    {
      r := CheckSpeaker(username);
      if r.Some? {
        speakers := speakers - {username};
        mentions := Orphan(mentions, username);
      }
    }

    /**
     * `create_mention`: make sure the speaker exists, then insert one row
     * with the next id, the clock's timestamp and the speaker's username.
     * Earlier rows are unchanged and the meter rises by exactly one.
     */
    method CreateMention(username: string, now: Instant) returns (m: Mention)
      requires Valid()
      modifies this
      ensures Valid()
      ensures m == NewMention(old(mentions), username, now)
      ensures mentions == old(mentions) + [m]
      ensures username in speakers
      ensures speakers == if old(username in speakers) then old(speakers) else old(speakers)[username := Speaker(username)]
      ensures Queries.Meter(mentions) == Queries.Meter(old(mentions)) + 1
      ensures Queries.Count(mentions, Some(username)) == Queries.Count(old(mentions), Some(username)) + 1
    {
      var speaker := CheckSpeaker(username);
      if speaker.None? {
        var created := CreateSpeaker(username);
      }
      m := NewMention(mentions, username, now);
      InsertKeepsIdsUnique(mentions, username, now);
      Queries.CountAppend(mentions, m, Some(username));
      mentions := mentions + [m];
    }

    /**
     * `delete_mention`: an absent id returns None and changes nothing; a
     * present id removes exactly that row and returns it.
     */
    method DeleteMention(mentionId: int) returns (r: Option<Mention>)
      requires Valid()
      modifies this
      ensures Valid()
      ensures speakers == old(speakers)
      ensures r.None? <==> forall i | 0 <= i < |old(mentions)| :: old(mentions)[i].id != mentionId
      ensures r.None? ==> mentions == old(mentions)
      ensures r.Some? ==> r.value.id == mentionId && r.value in old(mentions)
      ensures r.Some? ==> multiset(mentions) + multiset{r.value} == multiset(old(mentions))
      ensures r.Some? ==> forall j | 0 <= j < |mentions| :: mentions[j].id != mentionId
      ensures r.Some? ==> forall j | 0 <= j < |old(mentions)| && old(mentions)[j].id != mentionId :: old(mentions)[j] in mentions
      ensures r.Some? ==> exists i | 0 <= i < |old(mentions)| :: old(mentions)[i] == r.value && mentions == old(mentions)[..i] + old(mentions)[i + 1..]
    {
      var found := FindId(mentions, mentionId);
      if found.None? {
        return None;
      }
      var i := found.value;
      r := Some(mentions[i]);
      RemoveAtKeepsIds(mentions, i);
      ghost var before := mentions;
      mentions := RemoveAt(mentions, i);
      assert before[i] == r.value && mentions == before[..i] + before[i + 1..];
    }
  }
}
