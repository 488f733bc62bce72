/** The canned policy document that `buildPolicy` writes and the signer signs
    (cloudfront/cloudfront.go:32-63), with the expiry arithmetic of :56 and a reader
    that shows the document determines the grant it was built from. */
module CannedPolicy {
  import opened Types
  import Json
  import Decimal

  /** A `time.Time`, as whole nanoseconds since the Unix epoch (negative before 1970). */
  type Instant = int

  const NanosPerMilli := 1_000_000
  const NanosPerSecond := 1_000_000_000

  /** `t.Truncate(time.Millisecond)`: rounded down to a whole millisecond. Go rounds
      relative to its zero time, which lies a whole number of seconds before 1970. */
  function TruncateMillis(t: Instant): (r: Instant)
    ensures r % NanosPerMilli == 0 && r <= t < r + NanosPerMilli
  {
    t - t % NanosPerMilli
  }

  /** `t.Unix()`: whole seconds since the epoch, rounded down. */
  function Unix(t: Instant): (r: int)
    ensures r * NanosPerSecond <= t < r * NanosPerSecond + NanosPerSecond
  {
    t / NanosPerSecond
  }

  /** `expireTime.Truncate(time.Millisecond).Unix()`: truncating to the millisecond
      never changes the second, so this is the expiry rounded down to a whole second. */
  function EpochSeconds(t: Instant): (r: int)
    ensures r * NanosPerSecond <= t < r * NanosPerSecond + NanosPerSecond
    ensures r == t / NanosPerSecond
  {
    var ms := TruncateMillis(t);
    assert ms / NanosPerMilli * NanosPerMilli == ms;
    assert t / NanosPerSecond * 1000 <= ms / NanosPerMilli < t / NanosPerSecond * 1000 + 1000;
    Unix(ms)
  }

  datatype EpochTime = EpochTime(epochTime: int)
  datatype Condition = Condition(dateLessThan: EpochTime)
  datatype Statement = Statement(resource: Bytes, condition: Condition)
  datatype Policy = Policy(statement: seq<Statement>)

  /** The value `buildPolicy` marshals: one statement for `resource`, one condition. */
  function Grant(resource: Bytes, epoch: int): (p: Policy)
    ensures |p.statement| == 1
    ensures p.statement[0].resource == resource
    ensures p.statement[0].condition.dateLessThan.epochTime == epoch
  {
    Policy([Statement(resource, Condition(EpochTime(epoch)))])
  }

  /* The fixed text json.Marshal writes around the two variable fields. Keys come
     from the field names, or the json tag `AWS:EpochTime`, in declaration order. */
  const PolicyOpen: Bytes := "{\"Statement\":["
  const PolicyClose: Bytes := "]}"
  const ResourceKey: Bytes := "{\"Resource\":"
  const ConditionKey: Bytes := ",\"Condition\":" + "{\"DateLessThan\":" + "{\"AWS:EpochTime\":"
  const ConditionClose: Bytes := "}}}"

  /** One statement object. Its text is an object, `{` to `}`, and like everything
      json.Marshal writes it holds no control byte, `<`, `>` or `&`. */
  lemma ConditionKeySafe()
    ensures Json.HtmlSafe(ConditionKey)
  {
    var c, d, e: Bytes := ",\"Condition\":", "{\"DateLessThan\":", "{\"AWS:EpochTime\":";
    assert Json.HtmlSafe(c) && Json.HtmlSafe(d) && Json.HtmlSafe(e);
    Json.HtmlSafeConcat(c, d);
    Json.HtmlSafeConcat(c + d, e);
  }

  /** The fixed text holds no control byte, `<`, `>` or `&`. */
  lemma TemplateSafe()
    ensures Json.HtmlSafe(PolicyOpen) && Json.HtmlSafe(PolicyClose) && Json.HtmlSafe(ResourceKey)
    ensures Json.HtmlSafe(ConditionKey) && Json.HtmlSafe(ConditionClose)
  {
    ConditionKeySafe();
  }

  function MarshalStatement(s: Statement): (r: Bytes)
    ensures |r| > 0 && r[0] == '{' && r[|r| - 1] == '}'
    ensures Json.HtmlSafe(r)
  {
    var quoted, epoch := Json.Quote(s.resource), Decimal.FormatInt(s.condition.dateLessThan.epochTime);
    TemplateSafe();
    assert Json.HtmlSafe(epoch);
    Json.HtmlSafeConcat(ResourceKey, quoted);
    Json.HtmlSafeConcat(ResourceKey + quoted, ConditionKey);
    Json.HtmlSafeConcat(ResourceKey + quoted + ConditionKey, epoch);
    Json.HtmlSafeConcat(ResourceKey + quoted + ConditionKey + epoch, ConditionClose);
    ResourceKey + quoted + ConditionKey + epoch + ConditionClose
  }

  /** The statement array's elements, separated by commas: empty exactly when there
      are no statements, and otherwise an object first. */
  function MarshalStatements(ss: seq<Statement>): (r: Bytes)
    ensures r == [] <==> ss == []
    ensures ss != [] ==> r[0] == '{'
    ensures Json.HtmlSafe(r)
    decreases |ss|
  {
    if ss == [] then []
    else if |ss| == 1 then MarshalStatement(ss[0])
    else
      var head, tail := MarshalStatement(ss[0]), MarshalStatements(ss[1..]);
      Json.HtmlSafeConcat(head, [',']);
      Json.HtmlSafeConcat(head + [','], tail);
      head + [','] + tail
  }

  /** json.Marshal of a policy: compact, fields in declaration order. */
  function Marshal(p: Policy): (r: Bytes)
    ensures |PolicyOpen| + |PolicyClose| <= |r|
    ensures r[..|PolicyOpen|] == PolicyOpen && r[|r| - |PolicyClose|..] == PolicyClose
    ensures Json.HtmlSafe(r)
  {
    var body := MarshalStatements(p.statement);
    TemplateSafe();
    Json.HtmlSafeConcat(PolicyOpen, body);
    Json.HtmlSafeConcat(PolicyOpen + body, PolicyClose);
    PolicyOpen + body + PolicyClose
  }

  /** `buildPolicy(resource, expireTime)`. json.Marshal reports an error only for
      values this shape cannot hold, so the result is never an error, and the
      document reads back as the one-statement grant of `resource` until the
      expiry's whole second. */
  function BuildPolicy(resource: Bytes, expireTime: Instant): (r: Result<Bytes>)
    ensures r.Ok?
    ensures Parse(r.value) == Some(Grant(resource, expireTime / NanosPerSecond))
    ensures Json.HtmlSafe(r.value)
  {
    var p := Grant(resource, EpochSeconds(expireTime));
    MarshalRoundTrip(p);
    Ok(Marshal(p))
  }

  function StripPrefix(t: Bytes, p: Bytes): (r: Option<Bytes>)
    ensures r.Some? ==> |r.value| == |t| - |p|
  {
    if |p| <= |t| && t[..|p|] == p then Some(t[|p|..]) else None
  }

  function ReadStatement(t: Bytes): (r: Option<(Statement, Bytes)>)
    ensures r.Some? ==> |r.value.1| < |t|
  {
    var t1 :- StripPrefix(t, ResourceKey + ['"']);
    var res :- Json.ReadString(t1);
    var t2 :- StripPrefix(res.1, ConditionKey);
    var epoch :- Decimal.ReadInt(t2);
    var t3 :- StripPrefix(epoch.1, ConditionClose);
    Some((Statement(res.0, Condition(EpochTime(epoch.0))), t3))
  }

  function ReadStatements(t: Bytes): Option<(seq<Statement>, Bytes)>
    decreases |t|
  {
    var first :- ReadStatement(t);
    if |first.1| > 0 && first.1[0] == ',' then
      var more :- ReadStatements(first.1[1..]);
      Some(([first.0] + more.0, more.1))
    else
      Some(([first.0], first.1))
  }

  /** Reads a policy document back; None for text Marshal could not have written. */
  function Parse(t: Bytes): Option<Policy> {
    var body :- StripPrefix(t, PolicyOpen);
    if body == PolicyClose then Some(Policy([]))
    else
      var read :- ReadStatements(body);
      if read.1 == PolicyClose then Some(Policy(read.0)) else None
  }

  lemma StripPrefixOf(p: Bytes, rest: Bytes)
    ensures StripPrefix(p + rest, p) == Some(rest)
  {
    assert (p + rest)[..|p|] == p;
  }

  /* Regroup, Regroup3 and Regroup7 state associativity over abstract sequences, and
     the Template lemmas state one literal each. Stated inline next to the constant
     templates, the same facts exceed the solver's budget. */
  lemma Regroup(a: Bytes, e: Bytes, b: Bytes, f: Bytes, c: Bytes, rest: Bytes)
    ensures a + (['"'] + e + ['"']) + b + f + c + rest
      == (a + ['"']) + (e + ['"'] + (b + (f + (c + rest))))
  {
  }

  lemma ReadMarshalStatement(s: Statement, rest: Bytes)
    ensures ReadStatement(MarshalStatement(s) + rest) == Some((s, rest))
  {
    var n := s.condition.dateLessThan.epochTime;
    var e := Json.Escape(s.resource);
    var t3 := ConditionClose + rest;
    var t2 := Decimal.FormatInt(n) + t3;
    var t1 := e + ['"'] + (ConditionKey + t2);
    Regroup(ResourceKey, e, ConditionKey, Decimal.FormatInt(n), ConditionClose, rest);
    StripPrefixOf(ResourceKey + ['"'], t1);
    Json.ReadEscape(s.resource, ConditionKey + t2);
    StripPrefixOf(ConditionKey, t2);
    Decimal.ReadFormatInt(n, t3);
    StripPrefixOf(ConditionClose, rest);
  }

  lemma ReadStatementsStep(t: Bytes, s: Statement, rest: Bytes)
    requires ReadStatement(t) == Some((s, rest))
    ensures rest == [] || rest[0] != ',' ==> ReadStatements(t) == Some(([s], rest))
    ensures |rest| > 0 && rest[0] == ',' && ReadStatements(rest[1..]).Some? ==>
      ReadStatements(t) == Some(([s] + ReadStatements(rest[1..]).value.0, ReadStatements(rest[1..]).value.1))
  {
  }

  lemma ConsSplit<T>(s: seq<T>)
    requires |s| > 0
    ensures [s[0]] + s[1..] == s
  {
  }

  lemma CommaTail(m: Bytes, rest: Bytes)
    ensures ([','] + m + rest)[1..] == m + rest
    ensures ([','] + m + rest)[0] == ','
  {
  }

  lemma Regroup3(a: Bytes, b: Bytes, c: Bytes, d: Bytes)
    ensures a + b + c + d == a + (b + c + d)
  {
  }

  lemma ReadOneStatement(ss: seq<Statement>, rest: Bytes)
    requires |ss| == 1
    requires rest == [] || rest[0] != ','
    ensures ReadStatements(MarshalStatements(ss) + rest) == Some((ss, rest))
  {
    var s := ss[0];
    assert MarshalStatements(ss) == MarshalStatement(s);
    ReadMarshalStatement(s, rest);
    ReadStatementsStep(MarshalStatement(s) + rest, s, rest);
    assert [s] == ss;
  }

  lemma MarshalStatementsCons(ss: seq<Statement>)
    requires |ss| > 1
    ensures MarshalStatements(ss) == MarshalStatement(ss[0]) + [','] + MarshalStatements(ss[1..])
  {
  }

  /** A statement, a comma, then text that reads as statements. */
  lemma ReadConsStatement(s: Statement, m: Bytes, rest: Bytes, more: seq<Statement>)
    requires ReadStatements(m + rest) == Some((more, rest))
    ensures ReadStatements(MarshalStatement(s) + ([','] + m + rest)) == Some(([s] + more, rest))
  {
    var tail := [','] + m + rest;
    ReadMarshalStatement(s, tail);
    CommaTail(m, rest);
    ReadStatementsStep(MarshalStatement(s) + tail, s, tail);
  }

  lemma ReadMoreStatements(ss: seq<Statement>, rest: Bytes)
    requires |ss| > 1
    requires ReadStatements(MarshalStatements(ss[1..]) + rest) == Some((ss[1..], rest))
    ensures ReadStatements(MarshalStatements(ss) + rest) == Some((ss, rest))
  {
    var m := MarshalStatements(ss[1..]);
    MarshalStatementsCons(ss);
    Regroup3(MarshalStatement(ss[0]), [','], m, rest);
    ReadConsStatement(ss[0], m, rest, ss[1..]);
    ConsSplit(ss);
  }

  lemma {:induction false} ReadMarshalStatements(ss: seq<Statement>, rest: Bytes)
    requires ss != []
    requires rest == [] || rest[0] != ','
    ensures ReadStatements(MarshalStatements(ss) + rest) == Some((ss, rest))
    decreases |ss|
  {
    if |ss| == 1 {
      ReadOneStatement(ss, rest);
    } else {
      ReadMarshalStatements(ss[1..], rest);
      ReadMoreStatements(ss, rest);
    }
  }

  /** Every policy reads back from its marshalled text. */
  lemma MarshalRoundTrip(p: Policy)
    ensures Parse(Marshal(p)) == Some(p)
  {
    var body := MarshalStatements(p.statement) + PolicyClose;
    assert Marshal(p) == PolicyOpen + body;
    StripPrefixOf(PolicyOpen, body);
    if p.statement == [] {
      assert body == PolicyClose;
    } else {
      ReadMarshalStatements(p.statement, PolicyClose);
      assert body[0] == '{';
    }
  }

  /** Marshal is injective: distinct policies are never signed as the same bytes. */
  lemma MarshalInjective(p: Policy, q: Policy)
    ensures Marshal(p) == Marshal(q) <==> p == q
  {
    MarshalRoundTrip(p);
    MarshalRoundTrip(q);
  }

  lemma Regroup7(a: Bytes, b: Bytes, q: Bytes, c: Bytes, f: Bytes, d: Bytes, e: Bytes)
    ensures a + (b + q + c + f + d) + e == (a + b) + q + c + f + (d + e)
  {
  }

  lemma TemplateHead()
    ensures PolicyOpen + ResourceKey == "{\"Statement\":[{\"Resource\":"
  {
  }

  lemma TemplateMiddle()
    ensures ConditionKey == ",\"Condition\":{\"DateLessThan\":{\"AWS:EpochTime\":"
  {
  }

  lemma TemplateTail()
    ensures ConditionClose + PolicyClose == "}}}]}"
  {
  }

  /** The document is the fixed template around its two variable fields, with the
      keys `Statement`, `Resource`, `Condition`, `DateLessThan`, `AWS:EpochTime` in
      that order. */
  lemma BuildPolicyTemplate(resource: Bytes, expireTime: Instant)
    ensures BuildPolicy(resource, expireTime).value
      == "{\"Statement\":[{\"Resource\":" + Json.Quote(resource)
         + ",\"Condition\":{\"DateLessThan\":{\"AWS:EpochTime\":"
         + Decimal.FormatInt(expireTime / NanosPerSecond) + "}}}]}"
  {
    var q, f := Json.Quote(resource), Decimal.FormatInt(EpochSeconds(expireTime));
    var statement := Statement(resource, Condition(EpochTime(EpochSeconds(expireTime))));
    var v := BuildPolicy(resource, expireTime).value;
    assert v == PolicyOpen + MarshalStatements([statement]) + PolicyClose;
    assert MarshalStatements([statement]) == ResourceKey + q + ConditionKey + f + ConditionClose;
    Regroup7(PolicyOpen, ResourceKey, q, ConditionKey, f, ConditionClose, PolicyClose);
    TemplateHead();
    TemplateMiddle();
    TemplateTail();
  }

  /** Two expiries give byte-identical documents for the same resource exactly when
      they fall in the same whole second; different resources never share one. */
  lemma BuildPolicySameSecond(r1: Bytes, t1: Instant, r2: Bytes, t2: Instant)
    ensures BuildPolicy(r1, t1) == BuildPolicy(r2, t2)
      <==> r1 == r2 && t1 / NanosPerSecond == t2 / NanosPerSecond
  {
    MarshalInjective(Grant(r1, EpochSeconds(t1)), Grant(r2, EpochSeconds(t2)));
  }
}
