/**
 * The request-body validator shared by the create and update handlers. It takes the
 * body's fields and returns either the four-field record with a `None` error list, or
 * `None` with the error messages in the order the checks are made.
 */
module Schemas {
  import opened Wrappers
  import opened Text
  import opened Decimals
  import opened Dates

  /** The keys a payload must have, in the order they are checked. */
  const Required: seq<string> := ["title", "amount", "date", "category"]

  /** A request body: each key with the text of its value (`str()` of the JSON value). */
  type Body = map<string, string>

  /** The validated record: trimmed texts, the amount as a decimal, the date. */
  datatype Payload = Payload(title: string, amount: Decimal, date: Date, category: string)

  const TitleEmpty := "title cannot be empty"
  const CategoryEmpty := "category cannot be empty"
  const AmountNotPositive := "amount must be > 0"
  const AmountInvalid := "amount must be a valid number"
  const DateInvalid := "date must be in YYYY-MM-DD format"

  function MissingMessage(key: string): string {
    "Missing field: " + key
  }

  lemma MissingMessageInjective(a: string, b: string)
    ensures MissingMessage(a) == MissingMessage(b) ==> a == b
  {
    var p := "Missing field: ";
    if MissingMessage(a) == MissingMessage(b) {
      assert a == MissingMessage(a)[|p|..];
      assert b == MissingMessage(b)[|p|..];
    }
  }

  /** One "Missing field" message per key of `keys` that `body` lacks, in the order of `keys`. */
  function MissingErrors(body: Body, keys: seq<string>): seq<string>
  {
    if keys == [] then []
    else
      var k := keys[|keys| - 1];
      MissingErrors(body, keys[..|keys| - 1]) + (if k in body then [] else [MissingMessage(k)])
  }

  /**
   * The missing-key messages name exactly the absent keys of `keys`, there are no more
   * of them than keys, and there is none exactly when every key is present.
   */
  lemma {:induction false} MissingErrorsSpec(body: Body, keys: seq<string>)
    ensures var e := MissingErrors(body, keys);
      (forall k :: k in keys ==> (MissingMessage(k) in e <==> k !in body)) &&
      (forall x :: x in e ==> exists k :: k in keys && k !in body && x == MissingMessage(k)) &&
      |e| <= |keys| && (e == [] <==> forall k :: k in keys ==> k in body)
  {
    if keys != [] {
      var init, k := keys[..|keys| - 1], keys[|keys| - 1];
      assert keys == init + [k];
      MissingErrorsSpec(body, init);
      var e0 := MissingErrors(body, init);
      var tail := if k in body then [] else [MissingMessage(k)];
      assert MissingErrors(body, keys) == e0 + tail;
      forall k' | k' in keys
        ensures MissingMessage(k') in e0 + tail <==> k' !in body
      {
        MissingMessageInjective(k', k);
        if k' != k {
          assert k' in init;
          assert MissingMessage(k') !in tail;
        } else if k' !in init && MissingMessage(k') in e0 {
          var k'' :| k'' in init && k'' !in body && MissingMessage(k') == MissingMessage(k'');
          MissingMessageInjective(k', k'');
        }
      }
      forall x | x in e0 + tail
        ensures exists k' :: k' in keys && k' !in body && x == MissingMessage(k')
      {
        if x in e0 {
          var k' :| k' in init && k' !in body && x == MissingMessage(k');
          assert k' in keys;
        } else {
          assert k in keys;
        }
      }
    }
  }

  /** No key occurs twice in `keys`. */
  predicate Distinct(keys: seq<string>) {
    forall i, j :: 0 <= i < j < |keys| ==> keys[i] != keys[j]
  }

  /** For keys without repeats, no message is reported twice. */
  lemma {:induction false} MissingErrorsDistinct(body: Body, keys: seq<string>)
    requires Distinct(keys)
    ensures var e := MissingErrors(body, keys);
      forall i, j :: 0 <= i < j < |e| ==> e[i] != e[j]
  {
    if keys != [] {
      var init, k := keys[..|keys| - 1], keys[|keys| - 1];
      assert keys == init + [k];
      MissingErrorsDistinct(body, init);
      var e0 := MissingErrors(body, init);
      if k !in body {
        MissingErrorsSpec(body, init);
        forall x | x in e0 ensures x != MissingMessage(k) {
          var k' :| k' in init && k' !in body && x == MissingMessage(k');
          MissingMessageInjective(k', k);
        }
        var e := e0 + [MissingMessage(k)];
        forall i, j | 0 <= i < j < |e| ensures e[i] != e[j] {
          if j == |e0| {
            assert e[i] in e0;
          } else {
            assert e[i] == e0[i] && e[j] == e0[j];
          }
        }
      }
    }
  }

  /** `x` occurs in `e` before `y`. */
  predicate Before(e: seq<string>, x: string, y: string) {
    exists i, j :: 0 <= i < j < |e| && e[i] == x && e[j] == y
  }

  /** The messages of two absent keys come in the order of the keys. */
  lemma {:induction false} MissingErrorsKeyOrder(body: Body, keys: seq<string>)
    ensures forall a, b :: 0 <= a < b < |keys| && keys[a] !in body && keys[b] !in body ==>
      Before(MissingErrors(body, keys), MissingMessage(keys[a]), MissingMessage(keys[b]))
  {
    if keys != [] {
      var init, k := keys[..|keys| - 1], keys[|keys| - 1];
      assert keys == init + [k];
      MissingErrorsKeyOrder(body, init);
      var e0 := MissingErrors(body, init);
      var e := MissingErrors(body, keys);
      assert e == e0 + (if k in body then [] else [MissingMessage(k)]);
      forall a, b | 0 <= a < b < |keys| && keys[a] !in body && keys[b] !in body
        ensures Before(e, MissingMessage(keys[a]), MissingMessage(keys[b]))
      {
        assert keys[a] == init[a];
        if b < |init| {
          assert keys[b] == init[b];
          assert Before(e0, MissingMessage(init[a]), MissingMessage(init[b]));
          var i, j :| 0 <= i < j < |e0| && e0[i] == MissingMessage(init[a]) && e0[j] == MissingMessage(init[b]);
          assert e[i] == e0[i] && e[j] == e0[j];
        } else {
          MissingErrorsSpec(body, init);
          assert init[a] in init;
          var i :| 0 <= i < |e0| && e0[i] == MissingMessage(keys[a]);
          assert e[i] == e0[i] && e[|e0|] == MissingMessage(keys[b]);
        }
      }
    }
  }

  /** Every key of `Required` is in the body. */
  predicate HasRequired(body: Body) {
    "title" in body && "amount" in body && "date" in body && "category" in body
  }

  lemma HasRequiredIff(body: Body)
    ensures HasRequired(body) <==> forall k :: k in Required ==> k in body
    ensures HasRequired(body) <==> MissingErrors(body, Required) == []
  {
    MissingErrorsSpec(body, Required);
  }

  /** `errs` with `msg` appended when `cond` holds. */
  function AppendIf(errs: seq<string>, cond: bool, msg: string): seq<string> {
    if cond then errs + [msg] else errs
  }

  /** `errs` with the amount check's message appended, if any. */
  function AppendAmountErrors(errs: seq<string>, amount: Option<Decimal>): seq<string> {
    match amount
    case None => errs + [AmountInvalid]
    case Some(d) => AppendIf(errs, !IsPositive(d), AmountNotPositive)
  }

  /**
   * The messages of the field checks, appended in the order title, category, amount,
   * date, on the stripped texts and the outcomes of the two parsers.
   */
  function FieldErrors(title: string, category: string, amount: Option<Decimal>, date: Option<Date>): seq<string>
  {
    var named := AppendIf(AppendIf([], title == [], TitleEmpty), category == [], CategoryEmpty);
    AppendIf(AppendAmountErrors(named, amount), date.None?, DateInvalid)
  }

  /** The pair `parse_expense_payload` returns: `(record, None)` or `(None, errors)`. */
  function Validate(body: Body): (r: (Option<Payload>, Option<seq<string>>))
    ensures r.0.Some? ==>
      HasRequired(body) && r.0.value.title != [] && r.0.value.category != [] &&
      IsPositive(r.0.value.amount) && ValidDate(r.0.value.date)
  {
    if !HasRequired(body) then (None, Some(MissingErrors(body, Required)))
    else
      var title, category := PyStrip(body["title"]), PyStrip(body["category"]);
      var amount, date := ParseDecimal(body["amount"]), ParseDate(body["date"]);
      var errors := FieldErrors(title, category, amount, date);
      if errors != [] then (None, Some(errors))
      else (Some(Payload(title, amount.value, date.value, category)), None)
  }

  /** The loop of `parse_expense_payload` that collects a message per missing key. */
  method CollectMissing(body: Body) returns (errs: seq<string>)
    ensures errs == MissingErrors(body, Required)
  {
    errs := [];
    for i := 0 to |Required|
      invariant errs == MissingErrors(body, Required[..i])
    {
      assert Required[..i + 1][..i] == Required[..i];
      if Required[i] !in body {
        errs := errs + [MissingMessage(Required[i])];
      }
    }
    assert Required[..|Required|] == Required;
  }

  /**
   * `parse_expense_payload`: a loop over the required keys collects the missing ones;
   * if any is missing the function stops there, otherwise each field check appends its
   * message and a record is built only when no message was appended.
   */
  method ParseExpensePayload(body: Body) returns (parsed: Option<Payload>, errors: Option<seq<string>>)
    ensures (parsed, errors) == Validate(body)
  {
    var errs := CollectMissing(body);
    HasRequiredIff(body);
    if errs != [] {
      return None, Some(errs);
    }

    var title := PyStrip(body["title"]);
    var category := PyStrip(body["category"]);
    if title == [] {
      errs := errs + [TitleEmpty];
    }
    if category == [] {
      errs := errs + [CategoryEmpty];
    }
    assert errs == AppendIf(AppendIf([], title == [], TitleEmpty), category == [], CategoryEmpty);
    ghost var named := errs;

    var amount := ParseDecimal(body["amount"]);
    match amount {
      case None =>
        errs := errs + [AmountInvalid];
      case Some(d) =>
        if !IsPositive(d) {
          errs := errs + [AmountNotPositive];
        }
    }
    assert errs == AppendAmountErrors(named, amount);

    var date := ParseDate(body["date"]);
    if date.None? {
      errs := errs + [DateInvalid];
    }
    assert errs == FieldErrors(title, category, amount, date);
    ValidateSplit(body, title, category, amount, date);

    if errs != [] {
      return None, Some(errs);
    }
    return Some(Payload(title, amount.value, date.value, category)), None;
  }

  /** `Validate` on a body holding every key, stated on the stripped texts and parser outcomes. */
  lemma ValidateSplit(body: Body, title: string, category: string, amount: Option<Decimal>, date: Option<Date>)
    requires HasRequired(body)
    requires title == PyStrip(body["title"]) && category == PyStrip(body["category"])
    requires amount == ParseDecimal(body["amount"]) && date == ParseDate(body["date"])
    ensures var errors := FieldErrors(title, category, amount, date);
      Validate(body) ==
        if errors != [] then (None, Some(errors))
        else (Some(Payload(title, amount.value, date.value, category)), None)
  {
  }

  /**
   * A body without some required key fails with exactly the missing-key messages: one per
   * absent key of `Required`, and nothing from the field checks.
   */
  lemma MissingKeysReported(body: Body)
    requires !HasRequired(body)
    ensures Validate(body).0 == None && Validate(body).1 == Some(MissingErrors(body, Required))
    ensures var e := MissingErrors(body, Required);
      e != [] &&
      (forall k :: k in Required ==> (MissingMessage(k) in e <==> k !in body)) &&
      (forall x :: x in e ==> exists k :: k in Required && k !in body && x == MissingMessage(k))
  {
    MissingErrorsSpec(body, Required);
  }

  /** Exactly one half of the pair is present, and a failure carries at least one message. */
  lemma ExactlyOneResult(body: Body)
    ensures Validate(body).0.Some? != Validate(body).1.Some?
    ensures Validate(body).1.Some? ==> |Validate(body).1.value| > 0
  {
    HasRequiredIff(body);
  }

  /** The field checks find nothing exactly when every field is acceptable. */
  lemma FieldErrorsEmptyIff(title: string, category: string, amount: Option<Decimal>, date: Option<Date>)
    ensures FieldErrors(title, category, amount, date) == [] <==>
      title != [] && category != [] && amount.Some? && IsPositive(amount.value) && date.Some?
  {
  }

  /** The conditions of a successful validation, in both directions. */
  lemma AcceptedIff(body: Body)
    ensures Validate(body).0.Some? <==>
      HasRequired(body) &&
      PyStrip(body["title"]) != [] && PyStrip(body["category"]) != [] &&
      ParseDecimal(body["amount"]).Some? && IsPositive(ParseDecimal(body["amount"]).value) &&
      ParseDate(body["date"]).Some?
  {
    if HasRequired(body) {
      FieldErrorsEmptyIff(PyStrip(body["title"]), PyStrip(body["category"]),
                          ParseDecimal(body["amount"]), ParseDate(body["date"]));
    }
  }

  /**
   * On success the texts are the stripped inputs and not empty, the amount is the parsed
   * decimal and is positive, and the date is the parsed, valid date.
   */
  lemma AcceptedFields(body: Body)
    requires Validate(body).0.Some?
    ensures var p := Validate(body).0.value;
      HasRequired(body) &&
      p.title == PyStrip(body["title"]) && p.title != [] &&
      p.category == PyStrip(body["category"]) && p.category != [] &&
      ParseDecimal(body["amount"]) == Some(p.amount) && IsPositive(p.amount) &&
      ParseDate(body["date"]) == Some(p.date) && ValidDate(p.date)
  {
    AcceptedIff(body);
  }

  /** The rank of a field-check message: title, category, amount, date. */
  function MessageRank(m: string): int {
    if m == TitleEmpty then 0
    else if m == CategoryEmpty then 1
    else if m == AmountNotPositive || m == AmountInvalid then 2
    else 3
  }

  /**
   * Every field check runs: each message is there exactly when its own condition holds,
   * whatever the other fields hold.
   */
  lemma FieldErrorsAccumulate(title: string, category: string, amount: Option<Decimal>, date: Option<Date>)
    ensures var e := FieldErrors(title, category, amount, date);
      (TitleEmpty in e <==> title == []) &&
      (CategoryEmpty in e <==> category == []) &&
      (AmountInvalid in e <==> amount.None?) &&
      (AmountNotPositive in e <==> amount.Some? && !IsPositive(amount.value)) &&
      (DateInvalid in e <==> date.None?)
  {
    var e1 := AppendIf([], title == [], TitleEmpty);
    var e2 := AppendIf(e1, category == [], CategoryEmpty);
    var e3 := AppendAmountErrors(e2, amount);
    var e4 := AppendIf(e3, date.None?, DateInvalid);
    assert forall x :: x in e1 <==> title == [] && x == TitleEmpty;
    assert forall x :: x in e2 <==> x in e1 || (category == [] && x == CategoryEmpty);
    assert forall x :: x in e3 <==> x in e2 || (amount.None? && x == AmountInvalid) ||
                                    (amount.Some? && !IsPositive(amount.value) && x == AmountNotPositive);
    assert forall x :: x in e4 <==> x in e3 || (date.None? && x == DateInvalid);
  }

  /** The field-check messages come in the order title, category, amount, date. */
  lemma FieldErrorsOrdered(title: string, category: string, amount: Option<Decimal>, date: Option<Date>)
    ensures var e := FieldErrors(title, category, amount, date);
      forall i, j :: 0 <= i < j < |e| ==> MessageRank(e[i]) < MessageRank(e[j])
  {
    var t := if title == [] then [TitleEmpty] else [];
    var c := if category == [] then [CategoryEmpty] else [];
    var a := AppendAmountErrors([], amount);
    var d := if date.None? then [DateInvalid] else [];
    FieldErrorsConcat(title, category, amount, date);
    RanksIncrease(t, c, a, d);
  }

  /** The field-check messages are the four checks' own lists, concatenated. */
  lemma FieldErrorsConcat(title: string, category: string, amount: Option<Decimal>, date: Option<Date>)
    ensures FieldErrors(title, category, amount, date) ==
      (if title == [] then [TitleEmpty] else []) + (if category == [] then [CategoryEmpty] else []) +
      AppendAmountErrors([], amount) + (if date.None? then [DateInvalid] else [])
  {
    var t := if title == [] then [TitleEmpty] else [];
    var c := if category == [] then [CategoryEmpty] else [];
    var named := AppendIf(AppendIf([], title == [], TitleEmpty), category == [], CategoryEmpty);
    assert named == t + c;
    var a := AppendAmountErrors([], amount);
    assert AppendAmountErrors(named, amount) == named + a;
  }

  /** Four runs of at most one message each, of ranks 0, 1, 2 and 3, in that order. */
  lemma RanksIncrease(t: seq<string>, c: seq<string>, a: seq<string>, d: seq<string>)
    requires |t| <= 1 && |c| <= 1 && |a| <= 1 && |d| <= 1
    requires forall x :: x in t ==> MessageRank(x) == 0
    requires forall x :: x in c ==> MessageRank(x) == 1
    requires forall x :: x in a ==> MessageRank(x) == 2
    requires forall x :: x in d ==> MessageRank(x) == 3
    ensures var e := t + c + a + d;
      forall i, j :: 0 <= i < j < |e| ==> MessageRank(e[i]) < MessageRank(e[j])
  {
    var e := t + c + a + d;
    forall i, j | 0 <= i < j < |e| ensures MessageRank(e[i]) < MessageRank(e[j]) {
      RankAt(t, c, a, d, i);
      RankAt(t, c, a, d, j);
    }
  }

  /** The rank of position `i` of `t + c + a + d` is the number of the run it falls in. */
  lemma RankAt(t: seq<string>, c: seq<string>, a: seq<string>, d: seq<string>, i: int)
    requires forall x :: x in t ==> MessageRank(x) == 0
    requires forall x :: x in c ==> MessageRank(x) == 1
    requires forall x :: x in a ==> MessageRank(x) == 2
    requires forall x :: x in d ==> MessageRank(x) == 3
    requires 0 <= i < |t + c + a + d|
    ensures MessageRank((t + c + a + d)[i]) ==
      if i < |t| then 0 else if i < |t| + |c| then 1 else if i < |t| + |c| + |a| then 2 else 3
  {
    var e := t + c + a + d;
    if i < |t| {
      assert e[i] == t[i];
    } else if i < |t| + |c| {
      assert e[i] == c[i - |t|];
    } else if i < |t| + |c| + |a| {
      assert e[i] == a[i - |t| - |c|];
    } else {
      assert e[i] == d[i - |t| - |c| - |a|];
    }
  }

  /**
   * With all keys present every field check runs on its own field: each message is in
   * the error list exactly when its own field fails, whatever the other fields hold, and
   * the messages come in the order title, category, amount, date.
   */
  lemma FieldChecksAccumulate(body: Body)
    requires HasRequired(body)
    ensures var e := if Validate(body).1.Some? then Validate(body).1.value else [];
      var amount := ParseDecimal(body["amount"]);
      (TitleEmpty in e <==> PyStrip(body["title"]) == []) &&
      (CategoryEmpty in e <==> PyStrip(body["category"]) == []) &&
      (AmountInvalid in e <==> amount.None?) &&
      (AmountNotPositive in e <==> amount.Some? && !IsPositive(amount.value)) &&
      (DateInvalid in e <==> ParseDate(body["date"]).None?) &&
      (forall i, j :: 0 <= i < j < |e| ==> MessageRank(e[i]) < MessageRank(e[j]))
  {
    var title, category := PyStrip(body["title"]), PyStrip(body["category"]);
    var amount, date := ParseDecimal(body["amount"]), ParseDate(body["date"]);
    assert (if Validate(body).1.Some? then Validate(body).1.value else []) ==
           FieldErrors(title, category, amount, date);
    FieldErrorsAccumulate(title, category, amount, date);
    FieldErrorsOrdered(title, category, amount, date);
  }

  /** Only the required keys matter: any other key of the body is ignored. */
  lemma ExtraKeysIgnored(body: Body, extra: Body)
    requires forall k :: k in extra ==> k !in Required
    ensures Validate(body + extra) == Validate(body)
  {
    var a := body + extra;
    forall k | k in Required ensures (k in a <==> k in body) && (k in a ==> a[k] == body[k]) {
      assert k !in extra;
    }
    MissingErrorsEqual(a, body, Required);
    assert "title" in Required && "amount" in Required && "date" in Required && "category" in Required;
  }

  lemma {:induction false} MissingErrorsEqual(a: Body, b: Body, keys: seq<string>)
    requires forall k :: k in keys ==> (k in a <==> k in b)
    ensures MissingErrors(a, keys) == MissingErrors(b, keys)
  {
    if keys != [] {
      MissingErrorsEqual(a, b, keys[..|keys| - 1]);
    }
  }
}
