/**
 * The message handler cog: every message the bot can see goes through
 * `OnMessage`, and the `/increment` slash command through `Increment`. Both
 * write to the mention ledger; the Discord reply is returned as a value.
 */
module MessageHandler {
  import opened Wrappers
  import opened Models
  import Queries
  import Matcher
  import Crud

  /** A Discord user; two users are the same user when their ids agree. */
  datatype User = User(id: int, name: string)

  datatype Message = Message(author: User, content: string)

  const GoneUp: string := "Masa Meter has gone up!"

  /** The message raises the meter: someone other than the bot wrote the phrase. */
  predicate Raises(bot: User, message: Message) {
    message.author.id != bot.id && Matcher.Matches(message.content)
  }

  class Handler {
    /** The bot's own account (`self.bot.user`). */
    const bot: User
    /** The database the cog writes to. */
    const ledger: Crud.Ledger

    constructor(bot: User, ledger: Crud.Ledger)
      ensures this.bot == bot && this.ledger == ledger
    {
      this.bot := bot;
      this.ledger := ledger;
    }

    /**
     * Ignores the bot's own messages; otherwise records one mention for the
     * author when the phrase occurs in the content (however often it occurs)
     * and replies.
     */
    method OnMessage(message: Message, now: Instant) returns (reply: Option<string>)
      requires ledger.Valid()
      modifies ledger
      ensures ledger.Valid()
      ensures reply.Some? <==> Raises(bot, message)
      ensures reply.Some? ==> reply.value == GoneUp
      ensures Raises(bot, message) ==>
        && ledger.mentions == old(ledger.mentions) + [NewMention(old(ledger.mentions), message.author.name, now)]
        && message.author.name in ledger.speakers
        && ledger.speakers.Keys == old(ledger.speakers.Keys) + {message.author.name}
      ensures !Raises(bot, message) ==> ledger.mentions == old(ledger.mentions) && ledger.speakers == old(ledger.speakers)
      ensures Queries.Meter(ledger.mentions) == Queries.Meter(old(ledger.mentions)) + if Raises(bot, message) then 1 else 0
    {
      if message.author.id == bot.id {
        return None;
      }
      if Matcher.Search(message.content) {
        ghost var before := ledger.speakers;
        var _ := ledger.CreateMention(message.author.name, now);
        AddedKey(before, message.author.name, Models.Speaker(message.author.name));
        reply := Some(GoneUp);
      } else {
        reply := None;
      }
    }

    /** `/increment speaker`: the same ledger write, without the matcher, and always a reply. */
    method Increment(speaker: User, now: Instant) returns (reply: string)
      requires ledger.Valid()
      modifies ledger
      ensures ledger.Valid()
      ensures reply == GoneUp
      ensures ledger.mentions == old(ledger.mentions) + [NewMention(old(ledger.mentions), speaker.name, now)]
      ensures speaker.name in ledger.speakers
      ensures ledger.speakers.Keys == old(ledger.speakers.Keys) + {speaker.name}
      ensures Queries.Count(ledger.mentions, Some(speaker.name)) == Queries.Count(old(ledger.mentions), Some(speaker.name)) + 1
    {
      ghost var before := ledger.speakers;
      var _ := ledger.CreateMention(speaker.name, now);
      AddedKey(before, speaker.name, Models.Speaker(speaker.name));
      reply := GoneUp;
    }
  }

  /** Adding a key that may already be present: the keys grow by that key only. */
  lemma AddedKey<K, V>(m: map<K, V>, k: K, v: V)
    ensures (if k in m then m else m[k := v]).Keys == m.Keys + {k}
  {
  }
}
