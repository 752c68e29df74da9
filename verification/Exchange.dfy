/** The frame walk of `exchange_once` in `src/api.rs`, beside the pool's walk of the same
    frames. */
module Exchange {
  import opened Wrappers
  import opened Bytes
  import opened Frames
  import opened Service

  /** One frame's messages. Unlike the pool, a container too short for its count is kept as
      one item. */
  function ExchangeItems(data: seq<byte>): seq<seq<byte>> {
    if |data| >= 8 && CtorOf(data) == MSG_CONTAINER then
      Pow256Values();
      var count := I32Of(FromLe(data[4..8]));
      ItemsFrom(data, 8, if count < 0 then 0 else count)
    else [data]
  }

  method WalkFrame(data: seq<byte>) returns (items: seq<seq<byte>>)
    ensures items == ExchangeItems(data)
  {
    if |data| >= 8 && CtorOf(data) == MSG_CONTAINER {
      Pow256Values();
      var word := FromLe(data[4..8]);
      var count := if I32Of(word) < 0 then 0 else I32Of(word);
      items := WalkItems(data, count);
    } else {
      items := [data];
    }
  }

  /** The two walks see the same messages in every frame that both accept; they differ
      exactly on container frames of four to seven bytes. */
  lemma SameWalk(data: seq<byte>)
    ensures Items(data) == Ok(ExchangeItems(data)) <==> !(4 <= |data| < 8 && CtorOf(data) == MSG_CONTAINER)
  {
  }

  predicate IsResult(item: seq<byte>) {
    |item| >= 12 && CtorOf(item) == RPC_RESULT
  }

  predicate AnswersId(item: seq<byte>, id: u64) {
    IsResult(item) && AnsweredId(item) == id
  }

  predicate RejectsSalt(item: seq<byte>) {
    |item| >= 4 && CtorOf(item) == BAD_SERVER_SALT
  }

  /** What a walk over items has collected. */
  datatype Seen = Seen(answer: Option<seq<byte>>, resend: bool, acks: seq<u64>, salt: u64)

  function SeenAll(items: seq<seq<byte>>, id: u64, salt: u64): Seen {
    if items == [] then Seen(None, false, [], salt)
    else See(SeenAll(items[..|items| - 1], id, salt), items[|items| - 1], id)
  }

  /** One more item. */
  function See(s: Seen, item: seq<byte>, id: u64): Seen {
    Seen(
      if s.answer.None? && AnswersId(item, id) then Some(item[12..]) else s.answer,
      s.resend || RejectsSalt(item),
      s.acks + (if IsResult(item) then [AnsweredId(item)] else []),
      if |item| >= 4 && AnnouncedSalt(CtorOf(item), item).Some? then AnnouncedSalt(CtorOf(item), item).value
      else s.salt)
  }

  /** One frame of `exchange_once`. */
  method ScanExchange(items: seq<seq<byte>>, id: u64, salt: u64) returns (s: Seen)
    ensures s == SeenAll(items, id, salt)
  {
    s := Seen(None, false, [], salt);
    for k := 0 to |items|
      invariant s == SeenAll(items[..k], id, salt)
    {
      assert items[..k + 1][..k] == items[..k];
      s := LookAt(s, items[k], id);
    }
    assert items[..|items|] == items;
  }

  method LookAt(s: Seen, item: seq<byte>, id: u64) returns (r: Seen)
    ensures r == See(s, item, id)
  {
    r := s;
    if |item| < 4 { return; }
    var ctor := CtorOf(item);
    if ctor == BAD_SERVER_SALT || ctor == NEW_SESSION_CREATED {
      if |item| >= 28 {
        r := r.(salt := SaltAt(item, 20));
      }
      if ctor == BAD_SERVER_SALT {
        r := r.(resend := true);
      }
    } else if ctor == NEW_SERVER_SALT {
      if |item| >= 12 {
        r := r.(salt := SaltAt(item, 4));
      }
    } else if ctor == RPC_RESULT && |item| >= 12 {
      r := r.(acks := r.acks + [AnsweredId(item)]);
      if AnsweredId(item) == id && r.answer.None? {
        r := r.(answer := Some(item[12..]));
      }
    }
  }

  function SaltAt(item: seq<byte>, at: nat): u64
    requires at + 8 <= |item|
  {
    Pow256Values();
    FromLe(item[at..at + 8])
  }

  /** Item `i` is the first result for this id, and `answer` its payload. */
  ghost predicate FirstAnswer(items: seq<seq<byte>>, id: u64, i: int, answer: seq<byte>) {
    && 0 <= i < |items| && AnswersId(items[i], id) && answer == items[i][12..]
    && forall j :: 0 <= j < i ==> !AnswersId(items[j], id)
  }

  /** The answer is the payload of the first result for this id; a re-send is asked for
      exactly when a salt was rejected; acknowledgements go out for the results, in order, and
      for nothing else; the salt is the last one announced. */
  lemma SeenMeans(items: seq<seq<byte>>, id: u64, salt: u64)
    ensures var s := SeenAll(items, id, salt);
            && (s.answer.None? <==> forall i :: 0 <= i < |items| ==> !AnswersId(items[i], id))
            && (s.answer.Some? ==> exists i :: FirstAnswer(items, id, i, s.answer.value))
            && (s.resend <==> exists i :: 0 <= i < |items| && RejectsSalt(items[i]))
            && (forall a :: a in s.acks <==> exists i :: 0 <= i < |items| && AnswersId(items[i], a))
            && s.acks == ResultIds(items) && LastSalt(items, salt, s.salt)
  {
    AnswerMeans(items, id, salt);
    ResendMeans(items, id, salt);
    AcksMean(items, id, salt);
    AcksInOrder(items, id, salt);
    SaltMeans(items, id, salt);
  }

  /** The requests the results name, in order. */
  function ResultIds(items: seq<seq<byte>>): seq<u64> {
    if items == [] then []
    else (if IsResult(items[0]) then [AnsweredId(items[0])] else []) + ResultIds(items[1..])
  }

  lemma {:induction false} ResultIdsLast(items: seq<seq<byte>>, item: seq<byte>)
    ensures ResultIds(items + [item]) == ResultIds(items) + if IsResult(item) then [AnsweredId(item)] else []
  {
    hide IsResult, AnsweredId;
    if items == [] {
      assert [] + [item] == [item] && [item][1..] == [];
    } else {
      assert (items + [item])[1..] == items[1..] + [item];
      ResultIdsLast(items[1..], item);
    }
  }

  lemma {:induction false} AcksInOrder(items: seq<seq<byte>>, id: u64, salt: u64)
    ensures SeenAll(items, id, salt).acks == ResultIds(items)
  {
    hide IsResult, AnsweredId, AnswersId, RejectsSalt, AnnouncedSalt;
    if items != [] {
      var k := |items| - 1;
      AcksInOrder(items[..k], id, salt);
      ResultIdsLast(items[..k], items[k]);
      assert items[..k] + [items[k]] == items;
    }
  }

  lemma {:induction false} SaltMeans(items: seq<seq<byte>>, id: u64, salt: u64)
    ensures LastSalt(items, salt, SeenAll(items, id, salt).salt)
  {
    hide IsResult, AnsweredId, AnswersId, RejectsSalt, LastSalt;
    if items == [] {
      NoSalt(salt);
    } else {
      var k := |items| - 1;
      SaltMeans(items[..k], id, salt);
      LastSaltNext(items[..k], items[k], salt, SeenAll(items[..k], id, salt).salt);
      assert items[..k] + [items[k]] == items;
    }
  }

  lemma NoSalt(salt: u64)
    ensures LastSalt([], salt, salt)
  {
  }

  lemma {:induction false} AnswerMeans(items: seq<seq<byte>>, id: u64, salt: u64)
    ensures var s := SeenAll(items, id, salt);
            && (s.answer.None? <==> forall i :: 0 <= i < |items| ==> !AnswersId(items[i], id))
            && (s.answer.Some? ==> exists i :: FirstAnswer(items, id, i, s.answer.value))
  {
    hide AnsweredId, CtorOf, AnnouncedSalt, RejectsSalt;
    if items != [] {
      var k := |items| - 1;
      var shorter := items[..k];
      var before := SeenAll(shorter, id, salt);
      AnswerMeans(shorter, id, salt);
      if before.answer.Some? {
        var i :| FirstAnswer(shorter, id, i, before.answer.value);
        assert FirstAnswer(items, id, i, before.answer.value);
      } else {
        assert forall i :: 0 <= i < k ==> shorter[i] == items[i];
        assert AnswersId(items[k], id) ==> FirstAnswer(items, id, k, items[k][12..]);
      }
    }
  }

  lemma {:induction false} ResendMeans(items: seq<seq<byte>>, id: u64, salt: u64)
    ensures SeenAll(items, id, salt).resend <==> exists i :: 0 <= i < |items| && RejectsSalt(items[i])
  {
    hide AnsweredId, CtorOf, AnnouncedSalt, IsResult, AnswersId, RejectsSalt;
    if items != [] {
      var k := |items| - 1;
      ResendMeans(items[..k], id, salt);
      assert forall i :: 0 <= i < k ==> items[..k][i] == items[i];
    }
  }

  lemma {:induction false} AcksMean(items: seq<seq<byte>>, id: u64, salt: u64)
    ensures forall a :: a in SeenAll(items, id, salt).acks <==> exists i :: 0 <= i < |items| && AnswersId(items[i], a)
  {
    hide AnsweredId, CtorOf, AnnouncedSalt, IsResult, AnswersId, RejectsSalt;
    if items != [] {
      var k := |items| - 1;
      AcksMean(items[..k], id, salt);
      ResultNames(items[k]);
      assert forall i :: 0 <= i < k ==> items[..k][i] == items[i];
    }
  }

  lemma ResultNames(item: seq<byte>)
    ensures IsResult(item) ==> AnswersId(item, AnsweredId(item))
    ensures forall a: u64 :: AnswersId(item, a) ==> IsResult(item) && a == AnsweredId(item)
  {
  }

  /** A single announcement sets the salt to the one it carries. */
  lemma SaltAdopted(s: Seen, id: u64, bad: u64, seqNo: u32, code: u32, first: u64, unique: u64, salt: u64,
                    rest: seq<byte>)
    ensures See(s, BadServerSalt(bad, seqNo, code, salt, rest), id).salt == salt
    ensures See(s, NewSession(first, unique, salt, rest), id).salt == salt
    ensures See(s, NewServerSalt(salt, rest), id).salt == salt
  {
    BadServerSaltMeans(bad, seqNo, code, salt, rest);
    NewSessionMeans(first, unique, salt, rest);
    NewServerSaltMeans(salt, rest);
    hide BadServerSalt, NewSession, NewServerSalt, AnnouncedSalt, CtorOf, AnsweredId;
  }
}
