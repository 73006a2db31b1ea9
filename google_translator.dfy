/**
 * GoogleTranslator.TranslateAsync: the requests are grouped by source
 * language, in order of first appearance, and within a source by target
 * language, again in order of first appearance; each group goes to the
 * translation service in one call, and the answers are zipped back onto the
 * group's requests by position. The service (TranslateTextsAsync, an HTTP
 * call) is a parameter of the model.
 */
module GoogleTranslation {
  import opened Wrappers
  import opened Locales
  import opened Items
  import opened EnumerableExtensions

  const LanguageSeparator: char := '-'

  /** LanguageFor(locale): the language tag `{Language}-{Region}` the service takes. */
  function LanguageFor(l: LocaleInfo): string {
    l.language + [LanguageSeparator] + l.region
  }

  /** The language tag is the locale id with its separator written as '-'. */
  lemma LanguageForId(l: LocaleInfo)
    ensures LanguageFor(l) == l.Id()[|l.language| := LanguageSeparator]
  {
    IdParts(l);
  }

  /**
   * TranslateTextsAsync(source, target, texts): the translations the service
   * gives back, or the failure it throws.
   */
  type Service = (string, string, seq<string>) -> Result<seq<string>>

  function SourceOf(t: Translation): string { LanguageFor(t.from.locale) }
  function TargetOf(t: Translation): string { LanguageFor(t.toLocale) }

  /** The group a request belongs to: its (source, target) languages. */
  function KeyOf(t: Translation): (string, string) { (SourceOf(t), TargetOf(t)) }

  /** `items.Select(i => LanguageFor(i.From.Locale))`. */
  function Sources(items: seq<Translation>): (s: seq<string>)
    ensures |s| == |items|
    ensures forall i :: 0 <= i < |items| ==> s[i] == SourceOf(items[i])
  {
    seq(|items|, i requires 0 <= i < |items| => SourceOf(items[i]))
  }

  /** `items.Where(i => source is src).Select(i => LanguageFor(i.ToLocale))`. */
  function TargetsFrom(items: seq<Translation>, src: string): seq<string>
    decreases |items|
  {
    if items == [] then []
    else
      var n := |items| - 1;
      TargetsFrom(items[..n], src) + (if SourceOf(items[n]) == src then [TargetOf(items[n])] else [])
  }

  /** `toTranslate`: the requests of one group, in input order. */
  function Batch(items: seq<Translation>, k: (string, string)): seq<Translation> {
    GroupOf(items, KeyOf, k)
  }

  /** `toTranslate.Select(i => i.From.Text)`: the texts sent for one group. */
  function Texts(batch: seq<Translation>): seq<string> {
    seq(|batch|, i requires 0 <= i < |batch| => batch[i].from.text)
  }

  /**
   * `toTranslate.Select((i, idx) => new TranslationItem { Locale = i.ToLocale,
   * Name = i.From.Name, Text = translation[idx] })`: an answer shorter than
   * the group makes `translation[idx]` throw.
   */
  function BatchOutput(batch: seq<Translation>, texts: seq<string>): (r: Result<seq<TranslationItem>>)
    ensures r.Ok? <==> |texts| >= |batch|
    ensures r.Ok? ==> |r.value| == |batch| && forall idx :: 0 <= idx < |batch| ==>
      r.value[idx] == NewItem(batch[idx].toLocale, batch[idx].from.name, texts[idx])
  {
    if |texts| < |batch| then Err(MissingTranslation)
    else Ok(seq(|batch|, idx requires 0 <= idx < |batch| => NewItem(batch[idx].toLocale, batch[idx].from.name, texts[idx])))
  }

  /** `items.Where(i => source is src).Select(target).Distinct()`: the targets of one source. */
  function TargetsOf(items: seq<Translation>): string -> seq<string> {
    src => Dedup(TargetsFrom(items, src))
  }

  /** Every group, in the order the nested loops call the service. */
  function BatchKeys(items: seq<Translation>): seq<(string, string)> {
    PairsUpTo(Dedup(Sources(items)), TargetsOf(items))
  }

  /** One service call and the zip of its answer. */
  function RunBatch(items: seq<Translation>, k: (string, string), service: Service): Result<seq<TranslationItem>> {
    var batch := Batch(items, k);
    match service(k.0, k.1, Texts(batch))
    case Err(e) => Err(e)
    case Ok(texts) => BatchOutput(batch, texts)
  }

  /** The results of the calls for the given groups, appended in order; the first failure ends it. */
  function Collect(items: seq<Translation>, keys: seq<(string, string)>, service: Service): Result<seq<TranslationItem>>
    decreases |keys|
  {
    if keys == [] then Ok([])
    else
      var n := |keys| - 1;
      var prev := Collect(items, keys[..n], service);
      if prev.Err? then prev
      else match RunBatch(items, keys[n], service)
        case Err(e) => Err(e)
        case Ok(out) => Ok(prev.value + out)
  }

  /** What TranslateAsync returns. */
  function Translate(items: seq<Translation>, service: Service): Result<seq<TranslationItem>> {
    Collect(items, BatchKeys(items), service)
  }

  /** The requests of the given groups, group after group. */
  function Batches(items: seq<Translation>, keys: seq<(string, string)>): seq<Translation> {
    GroupsOf(items, KeyOf, keys)
  }

  // --------------------------------------------------------------- the loops

  lemma CollectUnfold(items: seq<Translation>, keys: seq<(string, string)>, i: nat, service: Service)
    requires i < |keys|
    ensures Collect(items, keys[..i + 1], service) ==
      var prev := Collect(items, keys[..i], service);
      if prev.Err? then prev
      else match RunBatch(items, keys[i], service)
        case Err(e) => Err(e)
        case Ok(out) => Ok(prev.value + out)
  {
    assert keys[..i + 1][..i] == keys[..i];
  }

  /** Once a call fails, the later groups are not translated. */
  lemma {:induction false} CollectStops(items: seq<Translation>, keys: seq<(string, string)>, i: nat, service: Service)
    requires i <= |keys| && Collect(items, keys[..i], service).Err?
    ensures Collect(items, keys, service) == Collect(items, keys[..i], service)
    decreases |keys| - i
  {
    if i < |keys| {
      CollectUnfold(items, keys, i, service);
      CollectStops(items, keys, i + 1, service);
    } else {
      assert keys[..i] == keys;
    }
  }

  /** `result` is what the calls for the first `done` groups give. */
  ghost predicate Translated(items: seq<Translation>, keys: seq<(string, string)>, done: nat,
                             service: Service, result: seq<TranslationItem>) {
    done <= |keys| && Collect(items, keys[..done], service) == Ok(result)
  }

  lemma NothingTranslated(items: seq<Translation>, keys: seq<(string, string)>, service: Service)
    ensures Translated(items, keys, 0, service, [])
  {
    assert keys[..0] == [];
  }

  /**
   * The call for the next group either ends the translation with the service's
   * failure or a short answer, or extends the result with the zipped answer.
   */
  lemma CollectNext(items: seq<Translation>, keys: seq<(string, string)>, done: nat, service: Service,
                    result: seq<TranslationItem>, k: (string, string), answer: Result<seq<string>>)
    requires Translated(items, keys, done, service, result) && done < |keys| && keys[done] == k
    requires answer == service(k.0, k.1, Texts(Batch(items, k)))
    ensures answer.Err? ==> Collect(items, keys, service) == Err(answer.error)
    ensures answer.Ok? ==> var out := BatchOutput(Batch(items, k), answer.value);
      && (out.Err? ==> Collect(items, keys, service) == Err(out.error))
      && (out.Ok? ==> Translated(items, keys, done + 1, service, result + out.value))
  {
    CollectUnfold(items, keys, done, service);
    if RunBatch(items, keys[done], service).Err? {
      CollectStops(items, keys, done + 1, service);
    }
  }

  /**
   * The requests of source `si` are the next ones after the `start` already
   * sent, one per distinct target of that source.
   */
  lemma SourceRequests(items: seq<Translation>, srcs: seq<string>, keys: seq<(string, string)>,
                       si: nat, start: nat, src: string, tgts: seq<string>)
    requires si < |srcs| && keys == PairsUpTo(srcs, TargetsOf(items)) && PairsDone(srcs, TargetsOf(items), si, keys, start)
    requires src == srcs[si] && tgts == Dedup(TargetsFrom(items, src))
    ensures start + |tgts| <= |keys| && forall ti :: 0 <= ti < |tgts| ==> keys[start + ti] == (src, tgts[ti])
    ensures PairsDone(srcs, TargetsOf(items), si + 1, keys, start + |tgts|)
  {
    var targets := TargetsOf(items);
    assert tgts == targets(src);
    PairsOfSource(srcs, targets, si, keys, start, src, tgts);
    SourcePairsDone(srcs, targets, si, keys, start);
  }

  /** Translate collects the answers to the listed requests. */
  lemma TranslateIsCollect(items: seq<Translation>, service: Service, srcs: seq<string>, keys: seq<(string, string)>)
    requires srcs == Dedup(Sources(items)) && keys == PairsUpTo(srcs, TargetsOf(items))
    ensures Translate(items, service) == Collect(items, keys, service)
  {
  }

  /**
   * The inner loop of TranslateAsync: the requests from `src` to each of
   * `tgts` sit at `keys[start..]`; each group is sent in turn and its zipped
   * answers appended to those already collected.
   */
  method TranslateTargets(items: seq<Translation>, service: Service, src: string, tgts: seq<string>,
                          ghost keys: seq<(string, string)>, ghost start: nat, prior: seq<TranslationItem>)
    returns (r: Result<seq<TranslationItem>>)
    requires start + |tgts| <= |keys|
    requires forall ti :: 0 <= ti < |tgts| ==> keys[start + ti] == (src, tgts[ti])
    requires Translated(items, keys, start, service, prior)
    ensures r.Err? ==> Collect(items, keys, service) == r
    ensures r.Ok? ==> Translated(items, keys, start + |tgts|, service, r.value)
  {
    var result := prior;
    var ti := 0;
    while ti < |tgts|
      invariant ti <= |tgts|
      invariant Translated(items, keys, start + ti, service, result)
    {
      var tgt := tgts[ti];
      var batch := Batch(items, (src, tgt));
      var translation := service(src, tgt, Texts(batch));
      CollectNext(items, keys, start + ti, service, result, (src, tgt), translation);
      if translation.Err? {
        return Err(translation.error);
      }
      var out := BatchOutput(batch, translation.value);
      if out.Err? {
        return Err(out.error);
      }
      result := result + out.value;
      ti := ti + 1;
    }
    r := Ok(result);
  }

  /**
   * TranslateAsync: for each distinct source language, for each distinct
   * target language of its requests, send the group's texts and append the
   * zipped answers.
   */
  method TranslateAsync(items: seq<Translation>, service: Service) returns (r: Result<seq<TranslationItem>>)
    ensures r == Translate(items, service)
  {
    var result: seq<TranslationItem> := [];
    var srcs := Dedup(Sources(items));
    ghost var keys := PairsUpTo(srcs, TargetsOf(items));
    ghost var done: nat := 0;
    TranslateIsCollect(items, service, srcs, keys);
    PairsStarted(srcs, TargetsOf(items), keys);
    NothingTranslated(items, keys, service);
    var si := 0;
    while si < |srcs|
      invariant PairsDone(srcs, TargetsOf(items), si, keys, done)
      invariant Translated(items, keys, done, service, result)
    {
      var src := srcs[si];
      var tgts := Dedup(TargetsFrom(items, src));
      SourceRequests(items, srcs, keys, si, done, src, tgts);
      var sent := TranslateTargets(items, service, src, tgts, keys, done, result);
      if sent.Err? {
        return sent;
      }
      result := sent.value;
      done := done + |tgts|;
      si := si + 1;
    }
    PairsFinished(srcs, TargetsOf(items), keys, done);
    r := Ok(result);
  }

  // ------------------------------------------------------------ the groups

  /** A target is listed for a source exactly when some request goes from that source to it. */
  lemma {:induction false} TargetsFromMembers(items: seq<Translation>, src: string, t: string)
    ensures t in TargetsFrom(items, src) <==> exists i :: 0 <= i < |items| && KeyOf(items[i]) == (src, t)
    decreases |items|
  {
    if items != [] {
      var n := |items| - 1;
      TargetsFromMembers(items[..n], src, t);
      if exists i :: 0 <= i < n && KeyOf(items[..n][i]) == (src, t) {
        var i :| 0 <= i < n && KeyOf(items[..n][i]) == (src, t);
        assert items[i] == items[..n][i];
      }
      if exists i :: 0 <= i < |items| && KeyOf(items[i]) == (src, t) {
        var i :| 0 <= i < |items| && KeyOf(items[i]) == (src, t);
        if i < n {
          assert items[..n][i] == items[i];
        }
      }
    }
  }

  /**
   * The groups the service is called for are distinct, and are exactly the
   * (source, target) pairs of the requests.
   */
  lemma BatchKeysSpec(items: seq<Translation>)
    ensures Distinct(BatchKeys(items))
    ensures forall k :: k in BatchKeys(items) <==> exists i :: 0 <= i < |items| && KeyOf(items[i]) == k
  {
    var srcs := Dedup(Sources(items));
    var targets := TargetsOf(items);
    DedupNoRepeats(Sources(items));
    forall src | src in srcs ensures Distinct(targets(src)) {
      DedupNoRepeats(TargetsFrom(items, src));
    }
    PairsUpToDistinct(srcs, targets);
    forall k ensures k in BatchKeys(items) <==> exists i :: 0 <= i < |items| && KeyOf(items[i]) == k {
      PairsUpToMembers(srcs, targets, k);
      DedupMembers(Sources(items), k.0);
      DedupMembers(TargetsFrom(items, k.0), k.1);
      TargetsFromMembers(items, k.0, k.1);
      if exists i :: 0 <= i < |items| && KeyOf(items[i]) == k {
        var i :| 0 <= i < |items| && KeyOf(items[i]) == k;
        assert Sources(items)[i] == k.0;
      }
    }
  }

  /** A group holds exactly the requests with its (source, target) pair. */
  lemma BatchMembers(items: seq<Translation>, k: (string, string), t: Translation)
    ensures t in Batch(items, k) <==> t in items && KeyOf(t) == k
  {
    GroupOfMembers(items, KeyOf, k, t);
  }

  // --------------------------------------------------------- the partition

  /** The groups TranslateAsync sends hold every request exactly once. */
  lemma GroupsPartitionRequests(items: seq<Translation>)
    ensures multiset(Batches(items, BatchKeys(items))) == multiset(items)
  {
    BatchKeysSpec(items);
    forall i | 0 <= i < |items| ensures KeyOf(items[i]) in BatchKeys(items) {
    }
    GroupsPartition(items, KeyOf, BatchKeys(items));
  }

  // ------------------------------------------------------------ the result

  /** The service answers a group with at least one text per request. */
  predicate Answers(items: seq<Translation>, k: (string, string), service: Service) {
    var a := service(k.0, k.1, Texts(Batch(items, k)));
    a.Ok? && |a.value| >= |Batch(items, k)|
  }

  /** The calls succeed exactly when every group is answered in full. */
  lemma {:induction false} CollectOk(items: seq<Translation>, keys: seq<(string, string)>, service: Service)
    ensures Collect(items, keys, service).Ok? <==> forall i :: 0 <= i < |keys| ==> Answers(items, keys[i], service)
    decreases |keys|
  {
    if keys != [] {
      var n := |keys| - 1;
      CollectOk(items, keys[..n], service);
      assert forall i :: 0 <= i < n ==> keys[..n][i] == keys[i];
    }
  }

  /** Each translated item answers the request at the same position of the groups, into its locale and under its name. */
  lemma {:induction false} CollectShape(items: seq<Translation>, keys: seq<(string, string)>, service: Service)
    ensures var r := Collect(items, keys, service);
      var b := Batches(items, keys);
      r.Ok? ==> |r.value| == |b| && forall j :: 0 <= j < |b| ==>
        r.value[j] == NewItem(b[j].toLocale, b[j].from.name, r.value[j].text)
    decreases |keys|
  {
    if keys != [] {
      var n := |keys| - 1;
      CollectShape(items, keys[..n], service);
      var r := Collect(items, keys, service);
      if r.Ok? {
        var prev := Collect(items, keys[..n], service).value;
        var out := RunBatch(items, keys[n], service).value;
        var bp := Batches(items, keys[..n]);
        var bn := Batch(items, keys[n]);
        assert r.value == prev + out;
        assert Batches(items, keys) == bp + bn;
        forall j | |prev| <= j < |r.value|
          ensures r.value[j] == NewItem(bn[j - |prev|].toLocale, bn[j - |prev|].from.name, r.value[j].text)
        {
          assert r.value[j] == out[j - |prev|];
        }
      }
    }
  }

  /** Where the answers to group `i` of `keys` start in the collected result. */
  function Offset(items: seq<Translation>, keys: seq<(string, string)>, i: nat): nat
    requires i <= |keys|
  {
    |Batches(items, keys[..i])|
  }

  /**
   * `Text = translation[idx]` for the p-th request of group i: the service
   * answered that group, and the result holds, at Offset(i) + p, the item for
   * that request with the p-th answer as its text.
   */
  ghost predicate AnswerAt(items: seq<Translation>, keys: seq<(string, string)>, service: Service,
                           result: seq<TranslationItem>, i: nat, p: nat)
    requires i < |keys|
  {
    var bi := Batch(items, keys[i]);
    var a := service(keys[i].0, keys[i].1, Texts(bi));
    p < |bi| ==>
      && Offset(items, keys, i) + p < |result|
      && a.Ok? && p < |a.value|
      && result[Offset(items, keys, i) + p] == NewItem(bi[p].toLocale, bi[p].from.name, a.value[p])
  }

  /** Answers placed by the earlier groups stay where they are when a later group's items are appended. */
  lemma AnswerAtExtend(items: seq<Translation>, keys: seq<(string, string)>, service: Service,
                       prev: seq<TranslationItem>, out: seq<TranslationItem>, i: nat, p: nat)
    requires i < |keys| - 1
    requires AnswerAt(items, keys[..|keys| - 1], service, prev, i, p)
    ensures AnswerAt(items, keys, service, prev + out, i, p)
  {
    var n := |keys| - 1;
    assert keys[..n][i] == keys[i];
    assert keys[..n][..i] == keys[..i];
  }

  /** The last group's answers start right after the earlier groups' items. */
  lemma AnswerAtLast(items: seq<Translation>, keys: seq<(string, string)>, service: Service,
                     prev: seq<TranslationItem>, out: seq<TranslationItem>, p: nat)
    requires keys != [] && RunBatch(items, keys[|keys| - 1], service) == Ok(out)
    requires |prev| == Offset(items, keys, |keys| - 1)
    ensures AnswerAt(items, keys, service, prev + out, |keys| - 1, p)
  {
    var n := |keys| - 1;
    var bn := Batch(items, keys[n]);
    if p < |bn| {
      var a := service(keys[n].0, keys[n].1, Texts(bn));
      assert a.Ok? && out == BatchOutput(bn, a.value).value;
      assert (prev + out)[|prev| + p] == out[p];
    }
  }

  /**
   * The whole call zips each group's answers onto its requests: the p-th
   * request of group i gets the service's p-th answer for that group.
   */
  lemma {:induction false} CollectTexts(items: seq<Translation>, keys: seq<(string, string)>, service: Service)
    ensures var r := Collect(items, keys, service);
      r.Ok? ==> forall i, p :: 0 <= i < |keys| ==> AnswerAt(items, keys, service, r.value, i, p)
    decreases |keys|
  {
    if keys != [] {
      var n := |keys| - 1;
      CollectTexts(items, keys[..n], service);
      CollectShape(items, keys[..n], service);
      var r := Collect(items, keys, service);
      if r.Ok? {
        var prev := Collect(items, keys[..n], service).value;
        var out := RunBatch(items, keys[n], service).value;
        assert r.value == prev + out;
        assert keys[..n] == keys[..n][..n];
        forall i, p | 0 <= i < |keys| ensures AnswerAt(items, keys, service, r.value, i, p) {
          if i < n {
            AnswerAtExtend(items, keys, service, prev, out, i, p);
          } else {
            AnswerAtLast(items, keys, service, prev, out, p);
          }
        }
      }
    }
  }

  /**
   * TranslateAsync succeeds exactly when the service answers the group of
   * every request in full.
   */
  lemma TranslateOk(items: seq<Translation>, service: Service)
    ensures Translate(items, service).Ok? <==>
      forall i :: 0 <= i < |items| ==> Answers(items, KeyOf(items[i]), service)
  {
    var keys := BatchKeys(items);
    BatchKeysSpec(items);
    CollectOk(items, keys, service);
    AnsweredAlike(items, keys, service);
  }

  /** Keys that are exactly the requests' pairs are all answered exactly when every request's pair is. */
  lemma AnsweredAlike(items: seq<Translation>, keys: seq<(string, string)>, service: Service)
    requires forall k :: k in keys <==> exists i :: 0 <= i < |items| && KeyOf(items[i]) == k
    ensures (forall i :: 0 <= i < |keys| ==> Answers(items, keys[i], service)) <==>
      forall i :: 0 <= i < |items| ==> Answers(items, KeyOf(items[i]), service)
  {
    if forall i :: 0 <= i < |items| ==> Answers(items, KeyOf(items[i]), service) {
      forall i | 0 <= i < |keys| ensures Answers(items, keys[i], service) {
        assert keys[i] in keys;
      }
    }
    if forall i :: 0 <= i < |keys| ==> Answers(items, keys[i], service) {
      forall i | 0 <= i < |items| ensures Answers(items, KeyOf(items[i]), service) {
        assert KeyOf(items[i]) in keys;
      }
    }
  }

  /**
   * A successful TranslateAsync gives one item per request: taking the
   * requests group by group, item j has the locale and name of request j and
   * the default order, and the p-th request of each group has the service's
   * p-th answer for that group as its text.
   */
  lemma TranslateShape(items: seq<Translation>, service: Service)
    ensures var r := Translate(items, service);
      r.Ok? ==> var b := Batches(items, BatchKeys(items));
        && multiset(b) == multiset(items)
        && |b| == |items| == |r.value|
        && forall j :: 0 <= j < |items| ==>
             r.value[j] == NewItem(b[j].toLocale, b[j].from.name, r.value[j].text)
    ensures var r := Translate(items, service);
      r.Ok? ==> forall i, p :: 0 <= i < |BatchKeys(items)| ==> AnswerAt(items, BatchKeys(items), service, r.value, i, p)
  {
    var keys := BatchKeys(items);
    var b := Batches(items, keys);
    CollectShape(items, keys, service);
    CollectTexts(items, keys, service);
    GroupsPartitionRequests(items);
    assert |b| == |multiset(b)| == |multiset(items)| == |items|;
  }
}
