/** PoValidator: loading a catalog keyed by (context, id) and checking a
    translated PO catalog against its POT template, entry by entry. */
module PoValidator {
  import opened Wrappers
  import opened FormatErrors
  import opened FormatSpecifier
  import opened FormatPattern
  import opened Formatter
  import opened GettextMessage

  /** MessageContextId: equals and hashCode compare context and id, so a
      key is a value. */
  datatype ContextId = ContextId(context: string, id: string)

  /** validateFiles' switches. */
  datatype Options = Options(exactMatch: bool, allowEmptyTranslations: bool, allowFuzzy: bool)

  /** The reason validateFiles throws. Apart from FormatParseError, each is
      a MojoExecutionException whose text is not modelled;
      PluralTranslationMissing is the exception msgstrPlural.get(0) raises
      on a missing or empty list. */
  datatype ValidationError =
    | DuplicateMessageContextId(key: ContextId)
    | MessageListsMismatch
    | SourceReferencesMismatch
    | PluralIdsMismatch
    | MsgidMsgstrMismatch
    | FormatListsMismatch
    | FormatParseError(error: FormatError)
    | PluralTranslationMissing
    | EmptyTranslation
    | FuzzyTranslation
    | PotPluralFormsCount
    | PoPluralFormsCount
    | MsgidPluralMismatch

  type Catalog = map<ContextId, Message>

  /** The first outcome that fails, else the second. */
  function Then(first: Outcome<ValidationError>, second: Outcome<ValidationError>): Outcome<ValidationError> {
    if first.Fail? then first else second
  }

  // ---------------------------------------------------------------------
  // getFormatSpecifiers and checkFormatMatching

  /** The specifier segments, in order, without the fixed text. */
  function SpecsOf(segs: seq<Segment>): seq<Specifier>
    decreases |segs|
  {
    if segs == [] then []
    else (if segs[0].Spec? then [segs[0].spec] else []) + SpecsOf(segs[1..])
  }

  /** SpecsOf keeps every specifier and only specifiers, in order. */
  lemma {:induction false} SpecsOfAppend(a: seq<Segment>, b: seq<Segment>)
    ensures SpecsOf(a + b) == SpecsOf(a) + SpecsOf(b)
    decreases |a|
  {
    if a == [] {
      assert a + b == b;
    } else {
      SpecsOfAppend(a[1..], b);
      assert (a + b)[1..] == a[1..] + b;
      assert (a + b)[0] == a[0];
      var h := if a[0].Spec? then [a[0].spec] else [];
      calc {
        SpecsOf(a + b);
        h + SpecsOf(a[1..] + b);
        h + (SpecsOf(a[1..]) + SpecsOf(b));
        (h + SpecsOf(a[1..])) + SpecsOf(b);
        SpecsOf(a) + SpecsOf(b);
      }
    }
  }

  /** A specifier segment contributes its specifier once, between those of
      the segments before and after it. */
  lemma {:induction false} SpecsOfAt(segs: seq<Segment>, k: nat)
    requires k < |segs| && segs[k].Spec?
    ensures SpecsOf(segs) == SpecsOf(segs[..k]) + [segs[k].spec] + SpecsOf(segs[k + 1..])
  {
    assert segs == segs[..k] + ([segs[k]] + segs[k + 1..]);
    SpecsOfAppend(segs[..k], [segs[k]] + segs[k + 1..]);
    SpecsOfAppend([segs[k]], segs[k + 1..]);
    assert ([segs[k]] + segs[k + 1..])[1..] == segs[k + 1..];
    assert SpecsOf([segs[k]]) == [segs[k].spec] + SpecsOf([]);
  }

  /** sp is what some match in s decodes to. */
  ghost predicate DecodedIn(s: string, sp: Specifier) {
    exists p: nat :: p <= |s| && MatchAt(s, p).Some? && Decode(s, MatchAt(s, p).value) == Success(sp)
  }

  /** The specifiers of segments that match s are decodings of matches in
      s, and so legal. */
  lemma {:induction false} SpecsOfDecoded(s: string, segs: seq<Segment>)
    requires SpecsMatch(s, segs)
    ensures forall k :: 0 <= k < |SpecsOf(segs)| ==> DecodedIn(s, SpecsOf(segs)[k]) && Legal(SpecsOf(segs)[k])
    decreases |segs|
  {
    if segs != [] {
      assert SpecsMatch(s, segs[1..]) by {
        forall k | 0 <= k < |segs[1..]| ensures SpecMatches(s, segs[1..][k]) { assert segs[1..][k] == segs[k + 1]; }
      }
      SpecsOfDecoded(s, segs[1..]);
      if segs[0].Spec? {
        assert SpecMatches(s, segs[0]);
        DecodeLegal(s, MatchAt(s, segs[0].start).value);
      }
    }
  }

  /** PoValidator.getFormatSpecifiers: the specifiers parse finds, in order,
      or the exception it throws; each one is the legal decoding of a match
      in s. */
  function FormatSpecifiers(s: string): (r: Result<seq<Specifier>, FormatError>)
    ensures r.Success? <==> ParseFormat(s).Success?
    ensures r.Failure? ==> r.error == ParseFormat(s).error && exists k :: 0 <= k < |s| && s[k] == '%'
    ensures r.Success? ==> forall k :: 0 <= k < |r.value| ==> DecodedIn(s, r.value[k]) && Legal(r.value[k])
  {
    var segs :- ParseFormat(s);
    SpecsOfDecoded(s, segs);
    Success(SpecsOf(segs))
  }

  /** getFormatSpecifiers keeps every specifier segment of the parse, once
      and in place: the specifiers before it, its own, then those after. */
  lemma FormatSpecifiersComplete(s: string, k: nat)
    requires ParseFormat(s).Success? && k < |ParseFormat(s).value| && ParseFormat(s).value[k].Spec?
    ensures var segs := ParseFormat(s).value;
      FormatSpecifiers(s) == Success(SpecsOf(segs[..k]) + [segs[k].spec] + SpecsOf(segs[k + 1..]))
  {
    SpecsOfAt(ParseFormat(s).value, k);
  }

  /** checkFormatMatching: the template's string is parsed first, then the
      translation's; the two multisets of specifiers must be equal. */
  function FormatsMatch(potString: string, poString: string): (r: Outcome<ValidationError>)
    ensures r.Fail? ==> r.error.FormatParseError? || r.error == FormatListsMismatch
  {
    match FormatSpecifiers(potString)
    case Failure(e) => Fail(FormatParseError(e))
    case Success(potFormats) =>
      match FormatSpecifiers(poString)
      case Failure(e) => Fail(FormatParseError(e))
      case Success(poFormats) =>
        if multiset(potFormats) == multiset(poFormats) then Pass else Fail(FormatListsMismatch)
  }

  /** Two strings agree on formats: both parse, with the same specifiers
      the same number of times, in any order. */
  ghost predicate FormatsAgree(a: string, b: string) {
    FormatSpecifiers(a).Success? && FormatSpecifiers(b).Success? &&
    forall sp :: multiset(FormatSpecifiers(a).value)[sp] == multiset(FormatSpecifiers(b).value)[sp]
  }

  /** checkFormatMatching passes exactly when the formats agree, so a
      string that parses matches itself and a reordering of its
      specifiers; a failure is the template's parse error, else the
      translation's, else FormatListsMismatch. */
  lemma FormatsMatchAgree(a: string, b: string)
    ensures FormatsMatch(a, b).Pass? <==> FormatsAgree(a, b)
    ensures FormatSpecifiers(a).Success? ==> FormatsMatch(a, a) == Pass
    ensures FormatSpecifiers(a).Failure? ==> FormatsMatch(a, b) == Fail(FormatParseError(FormatSpecifiers(a).error))
    ensures FormatSpecifiers(a).Success? && FormatSpecifiers(b).Failure? ==>
      FormatsMatch(a, b) == Fail(FormatParseError(FormatSpecifiers(b).error))
    ensures FormatsMatch(a, b).Fail? && FormatSpecifiers(a).Success? && FormatSpecifiers(b).Success? ==>
      FormatsMatch(a, b) == Fail(FormatListsMismatch)
  {
    if FormatSpecifiers(a).Success? && FormatSpecifiers(b).Success? {
      var x, y := multiset(FormatSpecifiers(a).value), multiset(FormatSpecifiers(b).value);
      if forall sp :: x[sp] == y[sp] {
        assert x == y;
      }
    }
  }

  /** The verdict does not depend on which string is the template. */
  lemma FormatsMatchSymmetric(a: string, b: string)
    ensures FormatsMatch(a, b).Pass? <==> FormatsMatch(b, a).Pass?
  {
    FormatsMatchAgree(a, b);
    FormatsMatchAgree(b, a);
  }

  // ---------------------------------------------------------------------
  // loadCatalog

  /** MessageContextId's fields are annotated NotNull and equals dereferences the
      context, so only one message, the header, may lack a context. */
  predicate ContextsGiven(msgs: seq<Message>) {
    forall k, l :: 0 <= k < l < |msgs| && msgs[k].msgctxt.None? ==> msgs[l].msgctxt.Some?
  }

  function KeyOf(m: Message): ContextId
    requires m.msgctxt.Some?
  {
    ContextId(m.msgctxt.value, m.msgid)
  }

  /** From message i on, a message without a context comes only while the
      header is still unread, and no other follows it. */
  predicate HeaderAhead(msgs: seq<Message>, i: nat, headerRead: bool) {
    forall k :: i <= k < |msgs| && msgs[k].msgctxt.None? ==> !headerRead && forall l :: k < l < |msgs| ==> msgs[l].msgctxt.Some?
  }

  /** loadCatalog's loop from message i, with the header already skipped
      or not, and the map built so far. */
  function LoadFrom(msgs: seq<Message>, i: nat, headerRead: bool, acc: Catalog): (r: Result<Catalog, ValidationError>)
    requires i <= |msgs|
    requires HeaderAhead(msgs, i, headerRead)
    ensures r.Failure? ==>
      r.error.DuplicateMessageContextId? && exists k :: i <= k < |msgs| && Keyed(msgs, k) && KeyOf(msgs[k]) == r.error.key
    ensures r.Success? ==> forall key :: key in acc ==> key in r.value && r.value[key] == acc[key]
    decreases |msgs| - i
  {
    if i == |msgs| then Success(acc)
    else if msgs[i].msgctxt.None? then LoadFrom(msgs, i + 1, true, acc)
    else
      var key := KeyOf(msgs[i]);
      if key in acc then Failure(DuplicateMessageContextId(key))
      else LoadFrom(msgs, i + 1, headerRead, acc[key := msgs[i]])
  }

  function LoadCatalogOf(msgs: seq<Message>): Result<Catalog, ValidationError>
    requires ContextsGiven(msgs)
  {
    LoadFrom(msgs, 0, false, map[])
  }

  /** PoValidator.loadCatalog after the file is parsed: the first message
      without a context (the header) is skipped, every other is put under
      its key, and a key put twice is an error. */
  method LoadCatalog(msgs: seq<Message>) returns (r: Result<Catalog, ValidationError>)
    requires ContextsGiven(msgs)
    ensures r == LoadCatalogOf(msgs)
  {
    var result: Catalog := map[];
    var nullContextMessageRead := false;
    var i := 0;
    while i < |msgs|
      invariant 0 <= i <= |msgs|
      invariant nullContextMessageRead <==> exists k :: 0 <= k < i && msgs[k].msgctxt.None?
      invariant LoadCatalogOf(msgs) == LoadFrom(msgs, i, nullContextMessageRead, result)
    {
      var message := msgs[i];
      if message.msgctxt == None && !nullContextMessageRead {
        nullContextMessageRead := true;
        i := i + 1;
        continue;
      }
      var key := ContextId(message.msgctxt.value, message.msgid);
      if key in result {
        return Failure(DuplicateMessageContextId(key));
      }
      result := result[key := message];
      i := i + 1;
    }
    return Success(result);
  }

  /** The messages from i on that are keyed. */
  predicate Keyed(msgs: seq<Message>, k: nat) {
    k < |msgs| && msgs[k].msgctxt.Some?
  }

  predicate KeysDistinct(msgs: seq<Message>, i: nat) {
    forall k, l :: i <= k < l < |msgs| && Keyed(msgs, k) && Keyed(msgs, l) ==> KeyOf(msgs[k]) != KeyOf(msgs[l])
  }

  /** loadCatalog from message i succeeds exactly when no key repeats and
      none is already in acc; otherwise it fails on a duplicate key. */
  lemma {:induction false} LoadFromSucceeds(msgs: seq<Message>, i: nat, headerRead: bool, acc: Catalog)
    requires i <= |msgs|
    requires HeaderAhead(msgs, i, headerRead)
    ensures LoadFrom(msgs, i, headerRead, acc).Success? <==>
      KeysDistinct(msgs, i) && forall k :: i <= k < |msgs| && Keyed(msgs, k) ==> KeyOf(msgs[k]) !in acc
    ensures LoadFrom(msgs, i, headerRead, acc).Failure? ==> LoadFrom(msgs, i, headerRead, acc).error.DuplicateMessageContextId?
    decreases |msgs| - i
  {
    if i < |msgs| {
      if msgs[i].msgctxt.None? {
        LoadFromSucceeds(msgs, i + 1, true, acc);
      } else {
        var key := KeyOf(msgs[i]);
        if key !in acc {
          LoadFromSucceeds(msgs, i + 1, headerRead, acc[key := msgs[i]]);
        }
      }
    }
  }

  /** A successful load from message i is acc plus every keyed message
      from i under its key. */
  lemma {:induction false} LoadFromContents(msgs: seq<Message>, i: nat, headerRead: bool, acc: Catalog)
    requires i <= |msgs|
    requires HeaderAhead(msgs, i, headerRead)
    requires LoadFrom(msgs, i, headerRead, acc).Success?
    ensures var c := LoadFrom(msgs, i, headerRead, acc).value;
      && c.Keys == acc.Keys + (set k | i <= k < |msgs| && Keyed(msgs, k) :: KeyOf(msgs[k]))
      && (forall key :: key in acc ==> c[key] == acc[key])
      && (forall k :: i <= k < |msgs| && Keyed(msgs, k) ==> c[KeyOf(msgs[k])] == msgs[k])
    decreases |msgs| - i
  {
    if i < |msgs| {
      if msgs[i].msgctxt.None? {
        LoadFromContents(msgs, i + 1, true, acc);
        KeysStep(msgs, i);
      } else {
        var key := KeyOf(msgs[i]);
        LoadFromContents(msgs, i + 1, headerRead, acc[key := msgs[i]]);
        KeysStep(msgs, i);
      }
    }
  }

  /** The keys of the keyed messages from i on: that of message i, if it
      is keyed, and those from i + 1 on. */
  lemma KeysStep(msgs: seq<Message>, i: nat)
    requires i < |msgs|
    ensures (set k | i <= k < |msgs| && Keyed(msgs, k) :: KeyOf(msgs[k])) ==
      (if Keyed(msgs, i) then {KeyOf(msgs[i])} else {}) + (set k | i + 1 <= k < |msgs| && Keyed(msgs, k) :: KeyOf(msgs[k]))
  {
  }

  /** A catalog loads exactly when no two messages with a context share
      (context, id); it then holds every message but the header, under its
      key. */
  lemma LoadCatalogSpec(msgs: seq<Message>)
    requires ContextsGiven(msgs)
    ensures LoadCatalogOf(msgs).Success? <==> KeysDistinct(msgs, 0)
    ensures LoadCatalogOf(msgs).Failure? ==> LoadCatalogOf(msgs).error.DuplicateMessageContextId?
    ensures LoadCatalogOf(msgs).Success? ==>
      && LoadCatalogOf(msgs).value.Keys == (set k | 0 <= k < |msgs| && Keyed(msgs, k) :: KeyOf(msgs[k]))
      && forall k :: 0 <= k < |msgs| && Keyed(msgs, k) ==> LoadCatalogOf(msgs).value[KeyOf(msgs[k])] == msgs[k]
  {
    LoadFromSucceeds(msgs, 0, false, map[]);
    if LoadCatalogOf(msgs).Success? {
      LoadFromContents(msgs, 0, false, map[]);
    }
  }

  /** checkFormatMatching: parses with Formatter.parse, keeps the
      specifiers and compares the two multisets. */
  method CheckFormatMatching(potString: string, poString: string) returns (r: Outcome<ValidationError>)
    ensures r == FormatsMatch(potString, poString)
  {
    var potSegs := Parse(potString);
    if potSegs.Failure? {
      return Fail(FormatParseError(potSegs.error));
    }
    var poSegs := Parse(poString);
    if poSegs.Failure? {
      return Fail(FormatParseError(poSegs.error));
    }
    var potFormats := SpecsOf(potSegs.value);
    var poFormats := SpecsOf(poSegs.value);
    if multiset(potFormats) == multiset(poFormats) {
      return Pass;
    }
    return Fail(FormatListsMismatch);
  }

  // ---------------------------------------------------------------------
  // validateFiles, one entry

  /** The errors one entry can raise: not those of loading or comparing
      the catalogs. */
  predicate EntryError(e: ValidationError) {
    !e.DuplicateMessageContextId? && e != MessageListsMismatch
  }

  /** The translation of msgid (msgstr, or msgstr[0] for a message with a
      non-empty msgid_plural): equal to the msgid in exact mode, with the
      same format specifiers otherwise, and non-empty unless allowed. */
  function TranslationCheck(pot: Message, po: Message, opt: Options): (r: Outcome<ValidationError>)
    ensures r.Fail? ==> EntryError(r.error)
  {
    if pot.msgidPlural.Some? && pot.msgidPlural.value != [] then
      if po.msgstrPlural.None? || po.msgstrPlural.value == [] then Fail(PluralTranslationMissing)
      else
        var first := po.msgstrPlural.value[0];
        Then(if opt.exactMatch then (if po.msgid != first then Fail(MsgidMsgstrMismatch) else Pass)
             else FormatsMatch(pot.msgid, first),
             if !opt.allowEmptyTranslations && first == [] then Fail(EmptyTranslation) else Pass)
    else
      Then(if opt.exactMatch then (if po.msgid != po.msgstr then Fail(MsgidMsgstrMismatch) else Pass)
           else FormatsMatch(pot.msgid, po.msgstr),
           if !opt.allowEmptyTranslations && po.msgstr == [] then Fail(EmptyTranslation) else Pass)
  }

  /** One of msgstr[1..]: equal to msgid_plural and non-empty unless
      allowed, in exact mode; with msgid_plural's specifiers otherwise. */
  function FormCheck(potPlural: string, form: string, opt: Options): (r: Outcome<ValidationError>)
    ensures r.Fail? ==> EntryError(r.error)
  {
    if opt.exactMatch then
      if potPlural != form then Fail(MsgidPluralMismatch)
      else if !opt.allowEmptyTranslations && form == [] then Fail(EmptyTranslation)
      else Pass
    else FormatsMatch(potPlural, form)
  }

  /** The loop over msgstr[i..], stopping at the first form that fails. */
  function FormsFrom(potPlural: string, forms: seq<string>, i: nat, opt: Options): (r: Outcome<ValidationError>)
    requires i <= |forms|
    ensures r.Fail? ==> EntryError(r.error)
    decreases |forms| - i
  {
    if i == |forms| then Pass
    else Then(FormCheck(potPlural, forms[i], opt), FormsFrom(potPlural, forms, i + 1, opt))
  }

  /** For a message with msgid_plural (even an empty one): the template has
      exactly two plural forms, the translation at least two, and every
      translated form after the first passes FormCheck. */
  function PluralFormsCheck(pot: Message, po: Message, opt: Options): (r: Outcome<ValidationError>)
    ensures r.Fail? ==> EntryError(r.error)
  {
    if pot.msgidPlural.None? then Pass
    else if pot.msgstrPlural.None? || |pot.msgstrPlural.value| != 2 then Fail(PotPluralFormsCount)
    else if po.msgstrPlural.None? || |po.msgstrPlural.value| < 2 then Fail(PoPluralFormsCount)
    else FormsFrom(pot.msgidPlural.value, po.msgstrPlural.value, 1, opt)
  }

  /** The body of validateFiles' loop for one key, checks in source order. */
  function EntryVerdict(pot: Message, po: Message, opt: Options): (r: Outcome<ValidationError>)
    ensures r.Fail? ==> EntryError(r.error)
    ensures multiset(pot.sourceReferences) != multiset(po.sourceReferences) ==> r == Fail(SourceReferencesMismatch)
    ensures multiset(pot.sourceReferences) == multiset(po.sourceReferences) && pot.msgidPlural != po.msgidPlural ==>
      r == Fail(PluralIdsMismatch)
  {
    if multiset(pot.sourceReferences) != multiset(po.sourceReferences) then Fail(SourceReferencesMismatch)
    else if pot.msgidPlural != po.msgidPlural then Fail(PluralIdsMismatch)
    else
      Then(TranslationCheck(pot, po, opt),
      Then(if !opt.allowFuzzy && po.fuzzy then Fail(FuzzyTranslation) else Pass,
           PluralFormsCheck(pot, po, opt)))
  }

  /** validateFiles' loop body, with its early throws. */
  method ValidateEntry(pot: Message, po: Message, opt: Options) returns (r: Outcome<ValidationError>)
    ensures r == EntryVerdict(pot, po, opt)
  {
    hide FormatsMatch;
    if multiset(pot.sourceReferences) != multiset(po.sourceReferences) {
      return Fail(SourceReferencesMismatch);
    }
    if pot.msgidPlural != po.msgidPlural {
      return Fail(PluralIdsMismatch);
    }
    var translation: string;
    if pot.msgidPlural.Some? && pot.msgidPlural.value != [] {
      if po.msgstrPlural.None? || po.msgstrPlural.value == [] {
        return Fail(PluralTranslationMissing);
      }
      translation := po.msgstrPlural.value[0];
      if opt.exactMatch {
        if po.msgid != translation {
          return Fail(MsgidMsgstrMismatch);
        }
      } else {
        r := CheckFormatMatching(pot.msgid, translation);
        if r.Fail? {
          return;
        }
      }
    } else {
      translation := po.msgstr;
      if opt.exactMatch {
        if po.msgid != translation {
          return Fail(MsgidMsgstrMismatch);
        }
      } else {
        r := CheckFormatMatching(pot.msgid, translation);
        if r.Fail? {
          return;
        }
      }
    }
    if !opt.allowEmptyTranslations && translation == [] {
      return Fail(EmptyTranslation);
    }
    if !opt.allowFuzzy && po.fuzzy {
      return Fail(FuzzyTranslation);
    }
    if pot.msgidPlural.Some? {
      if pot.msgstrPlural.None? || |pot.msgstrPlural.value| != 2 {
        return Fail(PotPluralFormsCount);
      }
      var potPluralStr := pot.msgidPlural.value;
      if po.msgstrPlural.None? || |po.msgstrPlural.value| < 2 {
        return Fail(PoPluralFormsCount);
      }
      var msgstrPlural := po.msgstrPlural.value;
      for i := 1 to |msgstrPlural|
        invariant FormsFrom(potPluralStr, msgstrPlural, 1, opt) == FormsFrom(potPluralStr, msgstrPlural, i, opt)
      {
        var poPluralStr := msgstrPlural[i];
        if opt.exactMatch {
          if potPluralStr != poPluralStr {
            return Fail(MsgidPluralMismatch);
          }
          if !opt.allowEmptyTranslations && poPluralStr == [] {
            return Fail(EmptyTranslation);
          }
        } else {
          r := CheckFormatMatching(potPluralStr, poPluralStr);
          if r.Fail? {
            return;
          }
        }
      }
    }
    return Pass;
  }

  /** A translated form agrees with its original: equal in exact mode,
      with the same specifiers otherwise. */
  ghost predicate Agrees(original: string, translated: string, exact: bool) {
    if exact then original == translated else FormatsMatch(original, translated).Pass?
  }

  /** What an accepted entry is, stated without the order of the checks. */
  ghost predicate EntryAccepted(pot: Message, po: Message, opt: Options) {
    && multiset(pot.sourceReferences) == multiset(po.sourceReferences)
    && pot.msgidPlural == po.msgidPlural
    && (if pot.msgidPlural.Some? && pot.msgidPlural.value != [] then
          && po.msgstrPlural.Some? && |po.msgstrPlural.value| > 0
          && (if opt.exactMatch then po.msgid == po.msgstrPlural.value[0] else FormatsMatch(pot.msgid, po.msgstrPlural.value[0]).Pass?)
          && (opt.allowEmptyTranslations || po.msgstrPlural.value[0] != [])
        else
          && (if opt.exactMatch then po.msgid == po.msgstr else FormatsMatch(pot.msgid, po.msgstr).Pass?)
          && (opt.allowEmptyTranslations || po.msgstr != []))
    && (opt.allowFuzzy || !po.fuzzy)
    && (pot.msgidPlural.Some? ==>
          && pot.msgstrPlural.Some? && |pot.msgstrPlural.value| == 2
          && po.msgstrPlural.Some? && |po.msgstrPlural.value| >= 2
          && FormsAccepted(pot.msgidPlural.value, po.msgstrPlural.value, opt))
  }

  /** A form after the first is accepted. */
  ghost predicate FormAccepted(potPlural: string, form: string, opt: Options) {
    Agrees(potPlural, form, opt.exactMatch) && (!opt.exactMatch || opt.allowEmptyTranslations || form != [])
  }

  ghost predicate FormsAccepted(potPlural: string, forms: seq<string>, opt: Options) {
    forall i :: 1 <= i < |forms| ==> FormAccepted(potPlural, forms[i], opt)
  }

  lemma FormCheckAccepted(potPlural: string, form: string, opt: Options)
    ensures FormCheck(potPlural, form, opt).Pass? <==> FormAccepted(potPlural, form, opt)
  {
    FormatsMatchAgree(potPlural, form);
  }

  lemma {:induction false} FormsFromAccepted(potPlural: string, forms: seq<string>, i: nat, opt: Options)
    requires 1 <= i <= |forms|
    ensures FormsFrom(potPlural, forms, i, opt).Pass? <==>
      forall k :: i <= k < |forms| ==> FormAccepted(potPlural, forms[k], opt)
    decreases |forms| - i
  {
    hide FormatsMatch;
    if i < |forms| {
      FormCheckAccepted(potPlural, forms[i], opt);
      FormsFromAccepted(potPlural, forms, i + 1, opt);
      assert FormsFrom(potPlural, forms, i, opt).Pass? <==>
        FormCheck(potPlural, forms[i], opt).Pass? && FormsFrom(potPlural, forms, i + 1, opt).Pass?;
    }
  }

  /** An entry passes exactly when it is accepted. */
  lemma EntryVerdictAccepted(pot: Message, po: Message, opt: Options)
    ensures EntryVerdict(pot, po, opt).Pass? <==> EntryAccepted(pot, po, opt)
  {
    hide FormatsMatch;
    if pot.msgidPlural.Some? && po.msgstrPlural.Some? && |po.msgstrPlural.value| >= 2 {
      FormsFromAccepted(pot.msgidPlural.value, po.msgstrPlural.value, 1, opt);
    }
  }

  /** A fuzzy translation is refused unless fuzzy ones are allowed, and
      an empty one unless empty ones are allowed. */
  lemma FuzzyAndEmptyRefused(pot: Message, po: Message, opt: Options)
    ensures po.fuzzy && !opt.allowFuzzy ==> EntryVerdict(pot, po, opt).Fail?
    ensures !opt.allowEmptyTranslations && (pot.msgidPlural.None? || pot.msgidPlural.value == []) && po.msgstr == [] ==>
      EntryVerdict(pot, po, opt).Fail?
  {
    EntryVerdictAccepted(pot, po, opt);
  }

  // ---------------------------------------------------------------------
  // validateFiles

  /** order lists every key of the catalog once. The iteration order of
      potCatalog.entrySet() is HashMap's and is not modelled; it is this
      parameter. */
  predicate Enumerates(order: seq<ContextId>, keys: set<ContextId>) {
    && (forall k :: 0 <= k < |order| ==> order[k] in keys)
    && (forall k, l :: 0 <= k < l < |order| ==> order[k] != order[l])
    && (forall key :: key in keys ==> key in order)
  }

  /** validateFiles' preconditions: keys are made only of messages with a
      context, and order enumerates the template's catalog. */
  predicate ValidationInputs(potMsgs: seq<Message>, poMsgs: seq<Message>, order: seq<ContextId>) {
    && ContextsGiven(potMsgs) && ContextsGiven(poMsgs)
    && (LoadCatalogOf(potMsgs).Success? ==> Enumerates(order, LoadCatalogOf(potMsgs).value.Keys))
  }

  /** The loop over the template's entries from order[i], stopping at the
      first entry that fails. */
  function EntriesFrom(pot: Catalog, po: Catalog, order: seq<ContextId>, i: nat, opt: Options): (r: Outcome<ValidationError>)
    requires i <= |order|
    requires forall k :: 0 <= k < |order| ==> order[k] in pot && order[k] in po
    ensures r.Fail? ==> EntryError(r.error)
    decreases |order| - i
  {
    if i == |order| then Pass
    else Then(EntryVerdict(pot[order[i]], po[order[i]], opt), EntriesFrom(pot, po, order, i + 1, opt))
  }

  /** PoValidator.validateFiles on the two parsed files: the template's
      catalog is loaded, then the translation's; their key sets must be
      equal; then every template entry is checked against the translation's
      entry with the same key. */
  function Validation(potMsgs: seq<Message>, poMsgs: seq<Message>, order: seq<ContextId>, opt: Options): (r: Outcome<ValidationError>)
    requires ValidationInputs(potMsgs, poMsgs, order)
    ensures r.Fail? && r.error.DuplicateMessageContextId? ==>
      LoadCatalogOf(potMsgs).Failure? || LoadCatalogOf(poMsgs).Failure?
    ensures r == Fail(MessageListsMismatch) <==>
      && LoadCatalogOf(potMsgs).Success? && LoadCatalogOf(poMsgs).Success?
      && LoadCatalogOf(potMsgs).value.Keys != LoadCatalogOf(poMsgs).value.Keys
  {
    match LoadCatalogOf(potMsgs)
    case Failure(e) => Fail(e)
    case Success(pot) =>
      match LoadCatalogOf(poMsgs)
      case Failure(e) => Fail(e)
      case Success(po) =>
        if pot.Keys != po.Keys then Fail(MessageListsMismatch)
        else EntriesFrom(pot, po, order, 0, opt)
  }

  method ValidateFiles(potMsgs: seq<Message>, poMsgs: seq<Message>, order: seq<ContextId>, opt: Options)
    returns (r: Outcome<ValidationError>)
    requires ValidationInputs(potMsgs, poMsgs, order)
    ensures r == Validation(potMsgs, poMsgs, order, opt)
  {
    var potCatalog := LoadCatalog(potMsgs);
    if potCatalog.Failure? {
      return Fail(potCatalog.error);
    }
    var poCatalog := LoadCatalog(poMsgs);
    if poCatalog.Failure? {
      return Fail(poCatalog.error);
    }
    var pot, po := potCatalog.value, poCatalog.value;
    if pot.Keys != po.Keys {
      return Fail(MessageListsMismatch);
    }
    for i := 0 to |order|
      invariant EntriesFrom(pot, po, order, 0, opt) == EntriesFrom(pot, po, order, i, opt)
    {
      var messageContextId := order[i];
      r := ValidateEntry(pot[messageContextId], po[messageContextId], opt);
      if r.Fail? {
        return;
      }
    }
    return Pass;
  }

  lemma {:induction false} EntriesFromAccepted(pot: Catalog, po: Catalog, order: seq<ContextId>, i: nat, opt: Options)
    requires i <= |order|
    requires forall k :: 0 <= k < |order| ==> order[k] in pot && order[k] in po
    ensures EntriesFrom(pot, po, order, i, opt).Pass? <==>
      forall k :: i <= k < |order| ==> EntryAccepted(pot[order[k]], po[order[k]], opt)
    ensures EntriesFrom(pot, po, order, i, opt).Fail? ==>
      exists k :: i <= k < |order| && EntriesFrom(pot, po, order, i, opt) == EntryVerdict(pot[order[k]], po[order[k]], opt)
        && forall j :: i <= j < k ==> EntryAccepted(pot[order[j]], po[order[j]], opt)
    decreases |order| - i
  {
    hide FormatsMatch, EntryVerdict, EntryAccepted;
    if i < |order| {
      EntryVerdictAccepted(pot[order[i]], po[order[i]], opt);
      EntriesFromAccepted(pot, po, order, i + 1, opt);
      if EntryVerdict(pot[order[i]], po[order[i]], opt).Fail? {
        assert EntriesFrom(pot, po, order, i, opt) == EntryVerdict(pot[order[i]], po[order[i]], opt);
      }
    }
  }

  /** The files validate exactly when both catalogs load, they have the
      same keys, and every entry is accepted: the verdict does not depend
      on the order in which the entries are visited. */
  lemma ValidationAccepted(potMsgs: seq<Message>, poMsgs: seq<Message>, order: seq<ContextId>, opt: Options)
    requires ValidationInputs(potMsgs, poMsgs, order)
    ensures Validation(potMsgs, poMsgs, order, opt).Pass? <==>
      && LoadCatalogOf(potMsgs).Success? && LoadCatalogOf(poMsgs).Success?
      && LoadCatalogOf(potMsgs).value.Keys == LoadCatalogOf(poMsgs).value.Keys
      && forall key :: key in LoadCatalogOf(potMsgs).value ==>
           EntryAccepted(LoadCatalogOf(potMsgs).value[key], LoadCatalogOf(poMsgs).value[key], opt)
  {
    if LoadCatalogOf(potMsgs).Success? && LoadCatalogOf(poMsgs).Success? {
      var pot, po := LoadCatalogOf(potMsgs).value, LoadCatalogOf(poMsgs).value;
      if pot.Keys == po.Keys {
        EntriesFromAccepted(pot, po, order, 0, opt);
        if forall k :: 0 <= k < |order| ==> EntryAccepted(pot[order[k]], po[order[k]], opt) {
          forall key | key in pot
            ensures EntryAccepted(pot[key], po[key], opt)
          {
            var k :| 0 <= k < |order| && order[k] == key;
          }
        }
      }
    }
  }

  /** Two visiting orders give the same verdict. */
  lemma ValidationOrderIndependent(potMsgs: seq<Message>, poMsgs: seq<Message>, order1: seq<ContextId>, order2: seq<ContextId>, opt: Options)
    requires ValidationInputs(potMsgs, poMsgs, order1) && ValidationInputs(potMsgs, poMsgs, order2)
    ensures Validation(potMsgs, poMsgs, order1, opt).Pass? <==> Validation(potMsgs, poMsgs, order2, opt).Pass?
  {
    ValidationAccepted(potMsgs, poMsgs, order1, opt);
    ValidationAccepted(potMsgs, poMsgs, order2, opt);
  }
}
