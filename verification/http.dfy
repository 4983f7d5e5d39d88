/**
  What an Express handler does with a request: answer with a status and a JSON
  body, or pass an error object on with `next(err)`.
 */
module Http {
  import opened Js
  import opened Ledger

  /** The fields of an error object the error handler reads. */
  datatype ErrorObject = ErrorObject(statusCode: Value, status: Value, message: Value)

  /** A JSON body: `{ errors }`, `{ error }`, a payload, or none (`res.end()`). */
  datatype Body<+T> = Errors(messages: seq<string>) | Error(error: Value) | Data(data: T) | Empty

  /** The outcome of a handler: a response, or an error handed to `next`. */
  datatype Reply<+T> = Respond(status: int, body: Body<T>) | Next(err: ErrorObject)

  /** `res.status(status).json({ error: message })`. */
  function Refuse<T>(status: int, message: string): (r: Reply<T>)
    ensures r.Respond? && r.status == status && r.body == Error(Str(message))
  {
    Respond(status, Error(Str(message)))
  }

  /**
    The object a rejected service call hands to `next`: a plain `Error` (or a
    SQLite error) that carries a message and neither `statusCode` nor `status`.
   */
  function Rejection(e: Ledger.Error): (err: ErrorObject)
    ensures !Truthy(err.statusCode) && !Truthy(err.status)
    ensures err.message == Str(Message(e))
  {
    ErrorObject(Undefined, Undefined, Str(Message(e)))
  }

  /** The store after a handler, with what the handler did. */
  datatype Outcome<+T> = Outcome(store: Store, reply: Reply<T>)

  // ---------------------------------------------------------------- accumulated checks

  /**
    The messages of the failed checks, in check order: a reference for the
    `errors` arrays the handlers build by pushing one message per failing check.
   */
  function Collect(failed: seq<bool>, messages: seq<string>): seq<string>
    requires |failed| == |messages|
  {
    if failed == [] then []
    else (if failed[0] then [messages[0]] else []) + Collect(failed[1..], messages[1..])
  }

  predicate Distinct(messages: seq<string>)
  {
    forall i, j :: 0 <= i < j < |messages| ==> messages[i] != messages[j]
  }

  /**
    The collected list is empty iff no check failed; it holds only the checks'
    messages; with distinct messages, a message is in it iff its check failed.
   */
  lemma {:induction false} CollectContents(failed: seq<bool>, messages: seq<string>)
    requires |failed| == |messages|
    ensures Collect(failed, messages) == [] <==> forall j :: 0 <= j < |failed| ==> !failed[j]
    ensures forall x :: x in Collect(failed, messages) ==> x in messages
    ensures Distinct(messages) ==>
      forall j :: 0 <= j < |messages| ==> (messages[j] in Collect(failed, messages) <==> failed[j])
    decreases |failed|
  {
    if failed != [] {
      var rest := Collect(failed[1..], messages[1..]);
      var head := if failed[0] then [messages[0]] else [];
      CollectContents(failed[1..], messages[1..]);
      assert Collect(failed, messages) == head + rest;
      forall x ensures x in head + rest <==> x in head || x in rest {
      }
      if forall j :: 0 <= j < |failed| ==> !failed[j] {
        forall j | 0 <= j < |failed[1..]| ensures !failed[1..][j] {
          assert failed[1..][j] == failed[j + 1];
        }
      }
      if forall j :: 0 <= j < |failed[1..]| ==> !failed[1..][j] {
        forall j | 1 <= j < |failed| ensures !failed[j] {
          assert failed[j] == failed[1..][j - 1];
        }
      }
      forall x | x in rest ensures x in messages {
        var k :| 0 <= k < |messages[1..]| && messages[1..][k] == x;
        assert messages[k + 1] == x;
      }
      if Distinct(messages) {
        assert Distinct(messages[1..]) by {
          forall i, j | 0 <= i < j < |messages[1..]| ensures messages[1..][i] != messages[1..][j] {
            assert messages[1..][i] == messages[i + 1] && messages[1..][j] == messages[j + 1];
          }
        }
        assert messages[0] !in rest;
        forall j | 1 <= j < |messages| ensures messages[j] in rest <==> failed[j] {
          assert messages[j] == messages[1..][j - 1] && failed[j] == failed[1..][j - 1];
        }
      }
    }
  }

  /** `errors.push(message)` when the check failed. */
  function Push(errors: seq<string>, failed: bool, message: string): (r: seq<string>)
    ensures failed ==> r == errors + [message]
    ensures !failed ==> r == errors
  {
    if failed then errors + [message] else errors
  }

  /** One more check at the end adds its message at the end when it fails. */
  lemma {:induction false} CollectSnoc(failed: seq<bool>, messages: seq<string>, b: bool, x: string)
    requires |failed| == |messages|
    ensures Collect(failed + [b], messages + [x]) == Push(Collect(failed, messages), b, x)
    decreases |failed|
  {
    if failed == [] {
      assert Collect([b], [x]) == (if b then [x] else []) + Collect([], []);
    } else {
      var head := if failed[0] then [messages[0]] else [];
      assert (failed + [b])[1..] == failed[1..] + [b];
      assert (messages + [x])[1..] == messages[1..] + [x];
      CollectSnoc(failed[1..], messages[1..], b, x);
      if b {
        Associative(head, Collect(failed[1..], messages[1..]), [x]);
      }
    }
  }

  /** The first four of a run of checks push exactly the messages collected from them. */
  lemma CollectFour(f: seq<bool>, m: seq<string>)
    requires |f| == |m| && 4 <= |f|
    ensures Collect(f[..4], m[..4]) == Push(Push(Push(Push([], f[0], m[0]), f[1], m[1]), f[2], m[2]), f[3], m[3])
  {
    var p0 := Push([], f[0], m[0]);
    var p1 := Push(p0, f[1], m[1]);
    var p2 := Push(p1, f[2], m[2]);
    CollectPrefix(f, m, 0, []);
    CollectPrefix(f, m, 1, p0);
    CollectPrefix(f, m, 2, p1);
    CollectPrefix(f, m, 3, p2);
  }

  /** Seven checks run one after the other push exactly the collected messages. */
  lemma CollectSeven(f: seq<bool>, m: seq<string>)
    requires |f| == 7 && |m| == 7
    ensures Collect(f, m) ==
      Push(Push(Push(Push(Push(Push(Push([], f[0], m[0]), f[1], m[1]), f[2], m[2]), f[3], m[3]), f[4], m[4]), f[5], m[5]), f[6], m[6])
  {
    var p3 := Push(Push(Push(Push([], f[0], m[0]), f[1], m[1]), f[2], m[2]), f[3], m[3]);
    var p4 := Push(p3, f[4], m[4]);
    var p5 := Push(p4, f[5], m[5]);
    CollectFour(f, m);
    CollectPrefix(f, m, 4, p3);
    CollectPrefix(f, m, 5, p4);
    CollectPrefix(f, m, 6, p5);
    assert f[..7] == f && m[..7] == m;
  }

  /** Five checks run one after the other push exactly the collected messages. */
  lemma CollectFive(f: seq<bool>, m: seq<string>)
    requires |f| == 5 && |m| == 5
    ensures Collect(f, m) == Push(Push(Push(Push(Push([], f[0], m[0]), f[1], m[1]), f[2], m[2]), f[3], m[3]), f[4], m[4])
  {
    var p3 := Push(Push(Push(Push([], f[0], m[0]), f[1], m[1]), f[2], m[2]), f[3], m[3]);
    CollectFour(f, m);
    CollectPrefix(f, m, 4, p3);
    assert f[..5] == f && m[..5] == m;
  }

  /** The messages collected from the first `k + 1` checks, from those of the first `k`. */
  lemma CollectPrefix(f: seq<bool>, m: seq<string>, k: nat, before: seq<string>)
    requires |f| == |m| && k < |f|
    requires k == 0 ==> before == []
    requires k > 0 ==> Collect(f[..k], m[..k]) == before
    ensures Collect(f[..k + 1], m[..k + 1]) == Push(before, f[k], m[k])
  {
    assert f[..k + 1] == f[..k] + [f[k]] && m[..k + 1] == m[..k] + [m[k]];
    CollectSnoc(f[..k], m[..k], f[k], m[k]);
  }

  lemma Associative(a: seq<string>, b: seq<string>, c: seq<string>)
    ensures (a + b) + c == a + (b + c)
  {
  }
}
