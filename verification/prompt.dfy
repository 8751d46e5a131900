/** Batch prompt construction for the regulation generator: the stored answer
    maps are cut into batches of ten users, and each batch is rendered as one
    prompt text (`batch_process_responses` and `prepare_prompt`). Sending the
    prompt to the text-generation service is not part of this model. */
module Prompt {
  import opened Wrappers
  import opened Survey

  const BatchSize := 10

  const Header := "Based on the following responses, generate ethical guidelines for autonomous vehicles:\n\n"

  /** One user's answer map in its iteration order: (key, rendered answer). */
  type Answers = seq<(string, string)>

  /** Why a key could not be turned into a question: `int()` refused the
      digits (`ValueError`), or the position is outside the catalog
      (`IndexError`). Either one aborts the whole prompt. */
  datatype PromptError = BadKey(key: string) | NoSuchQuestion(key: string) {
    function Key(): string {
      match this
      case BadKey(k) => k
      case NoSuchQuestion(k) => k
    }
  }

  /** `key` names a question of the catalog, negative positions included. */
  predicate Resolves(questions: seq<string>, key: string) {
    KeyIndex(key).Some? && -|questions| <= KeyIndex(key).value < |questions|
  }

  /** `questions[int(key[1:]) - 1]` */
  function QuestionFor(questions: seq<string>, key: string): (r: Result<string, PromptError>)
    ensures r.Ok? <==> Resolves(questions, key)
    ensures r.Err? ==> r.error.Key() == key
    ensures r.Err? ==> (r.error.BadKey? <==> KeyIndex(key).None?)
    ensures r.Ok? ==> PyIndex(questions, KeyIndex(key).value) == Some(r.value)
  {
    match KeyIndex(key)
    case None => Err(BadKey(key))
    case Some(k) =>
      match PyIndex(questions, k)
      case None => Err(NoSuchQuestion(key))
      case Some(q) => Ok(q)
  }

  predicate AllResolve(questions: seq<string>, entries: Answers) {
    forall e :: 0 <= e < |entries| ==> Resolves(questions, entries[e].0)
  }

  predicate BatchResolves(questions: seq<string>, batch: seq<Answers>) {
    forall u :: 0 <= u < |batch| ==> AllResolve(questions, batch[u])
  }

  /** Concatenation of a list of sequences: of batches, or of texts. */
  function Flatten<T>(bs: seq<seq<T>>): seq<T> {
    if bs == [] then [] else Flatten(bs[..|bs| - 1]) + bs[|bs| - 1]
  }

  lemma FlattenSnoc<T>(bs: seq<seq<T>>, b: seq<T>)
    ensures Flatten(bs + [b]) == Flatten(bs) + b
  {
    assert (bs + [b])[..|bs|] == bs;
  }

  /** The text written for one answer. */
  function EntryText(question: string, answer: string): string {
    question + "\nAnswer: " + answer + "\n\n"
  }

  /** The heading that opens the block of the user numbered `k`. */
  function UserHeading(k: nat): string {
    "User " + Decimal(k) + " Responses:\n"
  }

  /** The answers of one user, one entry per key in iteration order. */
  function EntriesText(questions: seq<string>, entries: Answers): string
    requires AllResolve(questions, entries)
  {
    if entries == [] then []
    else
      var last := entries[|entries| - 1];
      EntriesText(questions, entries[..|entries| - 1]) + EntryText(QuestionFor(questions, last.0).value, last.1)
  }

  /** The user blocks of a batch, block `u` (0-based) headed with number `u + 1`. */
  function UsersText(questions: seq<string>, batch: seq<Answers>): string
    requires BatchResolves(questions, batch)
  {
    if batch == [] then []
    else
      var n := |batch|;
      UsersText(questions, batch[..n - 1]) + UserHeading(n) + EntriesText(questions, batch[n - 1])
  }

  /** `err` is what the loop over `entries` raises: the error of the first
      entry whose key does not resolve, all entries before it resolving. */
  ghost predicate FirstFailure(questions: seq<string>, entries: Answers, err: PromptError) {
    exists e :: 0 <= e < |entries| && (forall m :: 0 <= m < e ==> Resolves(questions, entries[m].0))
      && QuestionFor(questions, entries[e].0) == Err(err)
  }

  /** `err` is what `prepare_prompt` raises on `batch`: the first failure of
      the first user whose entries do not all resolve. */
  ghost predicate BatchFirstFailure(questions: seq<string>, batch: seq<Answers>, err: PromptError) {
    exists u :: 0 <= u < |batch| && (forall v :: 0 <= v < u ==> AllResolve(questions, batch[v]))
      && FirstFailure(questions, batch[u], err)
  }

  /** The loop stops at entry `e` when every entry before it resolved. */
  lemma FirstFailureAt(questions: seq<string>, entries: Answers, e: nat, err: PromptError)
    requires e < |entries| && AllResolve(questions, entries[..e])
    requires QuestionFor(questions, entries[e].0) == Err(err)
    ensures FirstFailure(questions, entries, err)
  {
    assert forall m :: 0 <= m < e ==> entries[..e][m] == entries[m];
  }

  /** `prepare_prompt` stops at user `u` when every user before it resolved. */
  lemma BatchFirstFailureAt(questions: seq<string>, batch: seq<Answers>, u: nat, err: PromptError)
    requires u < |batch| && BatchResolves(questions, batch[..u])
    requires FirstFailure(questions, batch[u], err)
    ensures BatchFirstFailure(questions, batch, err)
  {
    assert forall w :: 0 <= w < u ==> batch[..u][w] == batch[w];
  }

  /** An entry that fails is never followed by an earlier-failing one: the
      error the loop raises is determined by the entries. */
  lemma FirstFailureUnique(questions: seq<string>, entries: Answers, a: PromptError, b: PromptError)
    requires FirstFailure(questions, entries, a) && FirstFailure(questions, entries, b)
    ensures a == b
  {
    var i :| 0 <= i < |entries| && (forall m :: 0 <= m < i ==> Resolves(questions, entries[m].0))
      && QuestionFor(questions, entries[i].0) == Err(a);
    var j :| 0 <= j < |entries| && (forall m :: 0 <= m < j ==> Resolves(questions, entries[m].0))
      && QuestionFor(questions, entries[j].0) == Err(b);
  }

  /** The error `prepare_prompt` raises on a batch is determined by the batch. */
  lemma BatchFirstFailureUnique(questions: seq<string>, batch: seq<Answers>, a: PromptError, b: PromptError)
    requires BatchFirstFailure(questions, batch, a) && BatchFirstFailure(questions, batch, b)
    ensures a == b
  {
    var u :| 0 <= u < |batch| && (forall w :: 0 <= w < u ==> AllResolve(questions, batch[w]))
      && FirstFailure(questions, batch[u], a);
    var v :| 0 <= v < |batch| && (forall w :: 0 <= w < v ==> AllResolve(questions, batch[w]))
      && FirstFailure(questions, batch[v], b);
    if u < v {
      FirstFailureFails(questions, batch[u], a);
    } else if v < u {
      FirstFailureFails(questions, batch[v], b);
    } else {
      FirstFailureUnique(questions, batch[u], a, b);
    }
  }

  /** A user whose loop raises does not have all keys resolving. */
  lemma FirstFailureFails(questions: seq<string>, entries: Answers, err: PromptError)
    requires FirstFailure(questions, entries, err)
    ensures !AllResolve(questions, entries)
  {
    var e :| 0 <= e < |entries| && (forall m :: 0 <= m < e ==> Resolves(questions, entries[m].0))
      && QuestionFor(questions, entries[e].0) == Err(err);
  }

  /** The loop raises at the first bad key even when a later key is bad in
      another way: with one question, "Q99" is out of range (`IndexError`)
      and is reported, not the undecodable "Qx" after it (`ValueError`). */
  lemma FirstFailureExample()
    ensures FirstFailure(["only"], [("Q99", "a"), ("Qx", "b")], NoSuchQuestion("Q99"))
    ensures !FirstFailure(["only"], [("Q99", "a"), ("Qx", "b")], BadKey("Qx"))
  {
    var es: Answers := [("Q99", "a"), ("Qx", "b")];
    assert "Q99"[1..] == "99";
    assert "99"[..1] == "9" && "9"[..0] == [];
    assert KeyIndex("Q99") == Some(98);
    assert QuestionFor(["only"], es[0].0) == Err(NoSuchQuestion("Q99"));
    if FirstFailure(["only"], es, BadKey("Qx")) {
      FirstFailureUnique(["only"], es, NoSuchQuestion("Q99"), BadKey("Qx"));
    }
  }

  /** The inner loop of `prepare_prompt`: append the entries of one user. */
  method AppendEntries(questions: seq<string>, entries: Answers, prompt: string)
    returns (r: Result<string, PromptError>)
    ensures r.Ok? <==> AllResolve(questions, entries)
    ensures r.Ok? ==> r.value == prompt + EntriesText(questions, entries)
    ensures r.Err? ==> exists e :: 0 <= e < |entries| && entries[e].0 == r.error.Key() && !Resolves(questions, entries[e].0)
    ensures r.Err? ==> FirstFailure(questions, entries, r.error)
  {
    var text := prompt;
    var e := 0;
    while e < |entries|
      invariant 0 <= e <= |entries|
      invariant AllResolve(questions, entries[..e])
      invariant text == prompt + EntriesText(questions, entries[..e])
    {
      var q := QuestionFor(questions, entries[e].0);
      if q.Err? {
        FirstFailureAt(questions, entries, e, q.error);
        return Err(q.error);
      }
      assert entries[..e + 1][..e] == entries[..e];
      text := text + EntryText(q.value, entries[e].1);
      e := e + 1;
    }
    assert entries[..e] == entries;
    return Ok(text);
  }

  /** Some user of the batch holds `key`, and `key` names no question. */
  ghost predicate FailingKey(questions: seq<string>, batch: seq<Answers>, key: string) {
    exists u, e :: 0 <= u < |batch| && 0 <= e < |batch[u]| && batch[u][e].0 == key && !Resolves(questions, key)
  }

  /** A key of user `u` that names no question fails the whole batch. */
  lemma FailingKeyFound(questions: seq<string>, batch: seq<Answers>, u: nat, key: string)
    requires u < |batch|
    requires exists e :: 0 <= e < |batch[u]| && batch[u][e].0 == key && !Resolves(questions, batch[u][e].0)
    ensures FailingKey(questions, batch, key)
    ensures !BatchResolves(questions, batch)
  {
    var e :| 0 <= e < |batch[u]| && batch[u][e].0 == key && !Resolves(questions, batch[u][e].0);
    assert !AllResolve(questions, batch[u]);
  }

  /** One more user: the blocks of the first `u + 1` users extend those of
      the first `u` by the heading and entries of user `u + 1`. */
  lemma UsersTextStep(questions: seq<string>, batch: seq<Answers>, u: nat)
    requires u < |batch| && BatchResolves(questions, batch[..u]) && AllResolve(questions, batch[u])
    ensures BatchResolves(questions, batch[..u + 1])
    ensures UsersText(questions, batch[..u + 1])
      == UsersText(questions, batch[..u]) + UserHeading(u + 1) + EntriesText(questions, batch[u])
  {
    assert batch[..u + 1][..u] == batch[..u];
    assert forall v :: 0 <= v < u + 1 ==> batch[..u + 1][v] == (if v < u then batch[..u][v] else batch[u]);
  }

  /** `prepare_prompt`: the fixed header, then for each user of the batch, in
      batch order and numbered from 1, a heading and that user's entries. */
  method PreparePrompt(questions: seq<string>, batch: seq<Answers>)
    returns (r: Result<string, PromptError>)
    ensures r.Ok? <==> BatchResolves(questions, batch)
    ensures r.Ok? ==> r.value == Header + UsersText(questions, batch)
    ensures r.Err? ==> FailingKey(questions, batch, r.error.Key())
    ensures r.Err? ==> BatchFirstFailure(questions, batch, r.error)
  {
    // The header is added in front at the end; appending to it in the loop
    // gives the same text.
    var body := [];
    var u := 0;
    while u < |batch|
      invariant 0 <= u <= |batch|
      invariant BatchResolves(questions, batch[..u])
      invariant body == UsersText(questions, batch[..u])
    {
      var r' := AppendEntries(questions, batch[u], body + UserHeading(u + 1));
      if r'.Err? {
        FailingKeyFound(questions, batch, u, r'.error.Key());
        BatchFirstFailureAt(questions, batch, u, r'.error);
        return Err(r'.error);
      }
      UsersTextStep(questions, batch, u);
      body := r'.value;
      u := u + 1;
    }
    assert batch[..u] == batch;
    return Ok(Header + body);
  }

  /** The user blocks of a batch as a list: block `u` (0-based) is the
      heading numbered `u + 1` followed by the entries of the `u`-th user. */
  function UserSections(questions: seq<string>, batch: seq<Answers>): (r: seq<string>)
    requires BatchResolves(questions, batch)
  {
    seq(|batch|, u requires 0 <= u < |batch| => UserHeading(u + 1) + EntriesText(questions, batch[u]))
  }

  /** The prompt body is the users' blocks, numbered 1 to |batch| in batch
      order, and nothing else. */
  lemma {:induction false} UsersTextIsNumberedBlocks(questions: seq<string>, batch: seq<Answers>)
    requires BatchResolves(questions, batch)
    ensures UsersText(questions, batch) == Flatten(UserSections(questions, batch))
  {
    if batch != [] {
      var n := |batch|;
      var front := batch[..n - 1];
      assert BatchResolves(questions, front);
      UsersTextIsNumberedBlocks(questions, front);
      var block := UserHeading(n) + EntriesText(questions, batch[n - 1]);
      assert UserSections(questions, batch) == UserSections(questions, front) + [block];
      FlattenSnoc(UserSections(questions, front), block);
    }
  }

  /** The answers of one user as a list: block `e` is the question its key
      names, followed by the answer. */
  function EntrySections(questions: seq<string>, entries: Answers): (r: seq<string>)
    requires AllResolve(questions, entries)
  {
    seq(|entries|, e requires 0 <= e < |entries| => EntryText(QuestionFor(questions, entries[e].0).value, entries[e].1))
  }

  /** A user's section is the entry blocks of that user's answers, in the
      map's iteration order, and nothing else. */
  lemma {:induction false} EntriesTextIsEntryBlocks(questions: seq<string>, entries: Answers)
    requires AllResolve(questions, entries)
    ensures EntriesText(questions, entries) == Flatten(EntrySections(questions, entries))
  {
    if entries != [] {
      var n := |entries|;
      var front := entries[..n - 1];
      assert AllResolve(questions, front);
      EntriesTextIsEntryBlocks(questions, front);
      var block := EntryText(QuestionFor(questions, entries[n - 1].0).value, entries[n - 1].1);
      assert EntrySections(questions, entries) == EntrySections(questions, front) + [block];
      FlattenSnoc(EntrySections(questions, front), block);
    }
  }

  /** The answer map the questionnaire stores resolves completely: the
      entry for the question at position `k` is rendered under that question. */
  lemma CollectedAnswersResolve(questions: seq<string>, answers: seq<string>)
    requires |answers| <= |questions| && |Decimal(|answers|)| <= MaxDigits
    ensures AllResolve(questions, CollectAnswers(answers))
    ensures forall k :: 0 <= k < |answers| ==> QuestionFor(questions, CollectAnswers(answers)[k].0) == Ok(questions[k])
  {
  }

  function Min(a: int, b: int): int {
    if a <= b then a else b
  }

  /** `xs[lo:hi]` for non-negative bounds: Python clips both bounds at the
      length instead of failing. */
  function PySlice<T>(xs: seq<T>, lo: nat, hi: nat): (r: seq<T>)
    requires lo <= hi
    ensures |r| == Min(hi, |xs|) - Min(lo, |xs|)
    ensures forall k :: 0 <= k < |r| ==> r[k] == xs[lo + k]
  {
    xs[Min(lo, |xs|)..Min(hi, |xs|)]
  }

  /** Batch number `b` (0-based) of the list: `all[10 * b : 10 * b + 10]`. */
  function BatchOf<T>(all: seq<T>, b: nat): seq<T> {
    PySlice(all, BatchSize * b, BatchSize * b + BatchSize)
  }

  /** The slicing loop of `batch_process_responses`:
      `all[i:i+10] for i in range(0, len(all), 10)`. */
  method Batches<T>(all: seq<T>) returns (batches: seq<seq<T>>)
    ensures Flatten(batches) == all
    ensures |batches| == (|all| + BatchSize - 1) / BatchSize
    ensures forall b :: 0 <= b < |batches| ==> 1 <= |batches[b]| <= BatchSize
    ensures forall b :: 0 <= b < |batches| - 1 ==> |batches[b]| == BatchSize
    ensures forall b :: 0 <= b < |batches| ==> batches[b] == BatchOf(all, b)
  {
    batches := [];
    var i := 0;
    while i < |all|
      invariant i == BatchSize * |batches|
      invariant i - BatchSize < |all|
      invariant Flatten(batches) == all[..Min(i, |all|)]
      invariant forall b :: 0 <= b < |batches| ==> BatchSize * b < |all| && |batches[b]| == Min(BatchSize, |all| - BatchSize * b)
      invariant forall b :: 0 <= b < |batches| ==> batches[b] == BatchOf(all, b)
    {
      var batch := PySlice(all, i, i + BatchSize);
      assert batch == all[i..Min(i + BatchSize, |all|)];
      assert (batches + [batch])[..|batches|] == batches;
      assert all[..Min(i + BatchSize, |all|)] == all[..i] + batch;
      batches := batches + [batch];
      i := i + BatchSize;
    }
    assert all[..Min(i, |all|)] == all;
  }

  /** `text` is the prompt `prepare_prompt` builds for `batch`. */
  predicate PromptOf(questions: seq<string>, batch: seq<Answers>, text: string) {
    BatchResolves(questions, batch) && text == Header + UsersText(questions, batch)
  }

  /** A key that fails in one batch fails the whole list of responses. */
  lemma BatchFailure(questions: seq<string>, batches: seq<seq<Answers>>, b: nat, key: string)
    requires b < |batches| && FailingKey(questions, batches[b], key)
    ensures !BatchResolves(questions, Flatten(batches))
  {
    var u: nat, e: nat :| u < |batches[b]| && e < |batches[b][u]| && batches[b][u][e].0 == key && !Resolves(questions, key);
    FlattenMember(batches, b, u);
  }

  /** Every batch resolving is the whole list resolving. */
  lemma {:induction false} FlattenResolves(questions: seq<string>, batches: seq<seq<Answers>>)
    requires forall b :: 0 <= b < |batches| ==> BatchResolves(questions, batches[b])
    ensures BatchResolves(questions, Flatten(batches))
  {
    if batches != [] {
      var last := |batches| - 1;
      FlattenResolves(questions, batches[..last]);
      var front := Flatten(batches[..last]);
      forall u | 0 <= u < |front| + |batches[last]|
        ensures AllResolve(questions, (front + batches[last])[u])
      {
        if u >= |front| {
          assert (front + batches[last])[u] == batches[last][u - |front|];
        }
      }
    }
  }

  /** The loop of `batch_process_responses`: one prompt per batch, in order,
      until a batch holds a key that does not resolve. */
  method PromptsFor(questions: seq<string>, batches: seq<seq<Answers>>)
    returns (prompts: seq<string>, failure: Option<PromptError>)
    ensures |prompts| <= |batches|
    ensures failure.None? ==> |prompts| == |batches|
    ensures forall p :: 0 <= p < |prompts| ==> PromptOf(questions, batches[p], prompts[p])
    ensures failure.Some? ==> |prompts| < |batches| && FailingKey(questions, batches[|prompts|], failure.value.Key())
    ensures failure.Some? ==> BatchFirstFailure(questions, batches[|prompts|], failure.value)
  {
    prompts := [];
    var b := 0;
    while b < |batches|
      invariant 0 <= b <= |batches|
      invariant |prompts| == b
      invariant forall p :: 0 <= p < b ==> PromptOf(questions, batches[p], prompts[p])
    {
      var one := PreparePrompt(questions, batches[b]);
      if one.Err? {
        return prompts, Some(one.error);
      }
      prompts := prompts + [one.value];
      b := b + 1;
    }
    return prompts, None;
  }

  /** `batch_process_responses` up to the service call: the prompts handed
      to the service, one per batch in order, and the error that stops the
      run, if any. The prompts of the batches before a failing one have
      already been sent when the error is raised, so they are returned with
      it. */
  method BatchPrompts(questions: seq<string>, all: seq<Answers>)
    returns (prompts: seq<string>, failure: Option<PromptError>)
    ensures failure.None? <==> BatchResolves(questions, all)
    ensures |prompts| <= (|all| + BatchSize - 1) / BatchSize
    ensures failure.None? ==> |prompts| == (|all| + BatchSize - 1) / BatchSize
    ensures forall p :: 0 <= p < |prompts| ==> PromptOf(questions, BatchOf(all, p), prompts[p])
    ensures failure.Some? ==> FailingKey(questions, BatchOf(all, |prompts|), failure.value.Key())
    ensures failure.Some? ==> BatchFirstFailure(questions, BatchOf(all, |prompts|), failure.value)
  {
    var batches: seq<seq<Answers>> := Batches(all);
    prompts, failure := PromptsFor(questions, batches);
    if failure.Some? {
      BatchFailure(questions, batches, |prompts|, failure.value.Key());
    } else {
      FlattenResolves(questions, batches);
    }
  }

  /** The `u`-th element of batch `b` occurs in the flattened list. */
  lemma {:induction false} FlattenMember<T>(bs: seq<seq<T>>, b: nat, u: nat)
    requires b < |bs| && u < |bs[b]|
    ensures bs[b][u] in Flatten(bs)
  {
    var last := |bs| - 1;
    assert Flatten(bs) == Flatten(bs[..last]) + bs[last];
    if b < last {
      FlattenMember(bs[..last], b, u);
    } else {
      assert bs[b][u] == Flatten(bs)[|Flatten(bs[..last])| + u];
    }
  }
}
