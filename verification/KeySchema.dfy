/**
 The contract key schema: template substitution, startup validation, and the
 key builders for markets, user bets and oracle results.
 */
module KeySchema {
  import opened Common
  import opened Decimal
  import opened CycleSearch

  const ID := "{id}"

  /** `template.replace("{id}", id)`: replaces every placeholder, left to right. */
  function Replace(template: string, id: string): string {
    if template == [] then []
    else if ID <= template then id + Replace(template[|ID|..], id)
    else [template[0]] + Replace(template[1..], id)
  }

  /** Number of placeholders that `Replace` fills. */
  function Holes(template: string): nat {
    if template == [] then 0
    else if ID <= template then 1 + Holes(template[|ID|..])
    else Holes(template[1..])
  }

  lemma OccursInTail(t: string, i: nat)
    requires t != []
    ensures OccursAt(t[1..], ID, i) <==> OccursAt(t, ID, i + 1)
  {
  }

  lemma ContainsInTail(t: string)
    requires t != [] && !OccursAt(t, ID, 0)
    ensures Contains(t, ID) <==> Contains(t[1..], ID)
  {
    if Contains(t[1..], ID) {
      var i :| 0 <= i <= |t[1..]| && OccursAt(t[1..], ID, i);
      OccursInTail(t, i);
    }
    if Contains(t, ID) {
      var i :| 0 <= i <= |t| && OccursAt(t, ID, i);
      OccursInTail(t, i - 1);
    }
  }

  lemma {:induction false} HolesCountOccurrences(t: string)
    ensures Holes(t) > 0 <==> Contains(t, ID)
  {
    assert ID <= t <==> OccursAt(t, ID, 0);
    if t != [] && !OccursAt(t, ID, 0) {
      ContainsInTail(t);
      HolesCountOccurrences(t[1..]);
    }
  }

  lemma {:induction false} ReplaceLength(t: string, id: string)
    ensures |Replace(t, id)| + Holes(t) * |ID| == |t| + Holes(t) * |id|
  {
    if t == [] {
    } else if ID <= t {
      ReplaceLength(t[|ID|..], id);
      var h := Holes(t[|ID|..]);
      assert Holes(t) * |id| == h * |id| + |id|;
    } else {
      ReplaceLength(t[1..], id);
    }
  }

  /** Filling a placeholder with itself gives the template back. */
  lemma {:induction false} ReplaceIdentity(t: string)
    ensures Replace(t, ID) == t
  {
    if t == [] {
    } else if ID <= t {
      ReplaceIdentity(t[|ID|..]);
      assert t == ID + t[|ID|..];
    } else {
      ReplaceIdentity(t[1..]);
      assert t == [t[0]] + t[1..];
    }
  }

  /** Two fillings of equal length agree only if the ids agree. */
  lemma {:induction false} ReplaceSameLengthInjective(t: string, a: string, b: string)
    requires Holes(t) > 0 && |a| == |b| && Replace(t, a) == Replace(t, b)
    ensures a == b
  {
    if ID <= t {
      assert a == Replace(t, a)[..|a|];
      assert b == Replace(t, b)[..|b|];
    } else {
      assert Replace(t, a)[1..] == Replace(t[1..], a);
      assert Replace(t, b)[1..] == Replace(t[1..], b);
      ReplaceSameLengthInjective(t[1..], a, b);
    }
  }

  lemma SameMultipleSameFactor(k: nat, a: nat, b: nat)
    requires k > 0 && k * a == k * b
    ensures a == b
  {
  }

  lemma {:induction false} ReplaceWithoutHoles(t: string, id: string)
    requires Holes(t) == 0
    ensures Replace(t, id) == t
  {
    if t != [] {
      ReplaceWithoutHoles(t[1..], id);
      assert t == [t[0]] + t[1..];
    }
  }

  lemma FirstInTail(t: string, i: nat)
    requires 0 < i && OccursAt(t, ID, i) && forall j :: 0 <= j < i ==> !OccursAt(t, ID, j)
    ensures OccursAt(t[1..], ID, i - 1) && forall j :: 0 <= j < i - 1 ==> !OccursAt(t[1..], ID, j)
  {
    OccursInTail(t, i - 1);
    forall j | 0 <= j < i - 1
      ensures !OccursAt(t[1..], ID, j)
    {
      OccursInTail(t, j);
      assert !OccursAt(t, ID, j + 1);
    }
  }

  /** The first placeholder is replaced by the id; what is before it stays, what follows is treated alike. */
  lemma {:induction false} ReplaceFirst(t: string, id: string, i: nat)
    requires OccursAt(t, "{id}", i) && forall j :: 0 <= j < i ==> !OccursAt(t, "{id}", j)
    ensures Replace(t, id) == t[..i] + id + Replace(t[i + 4..], id)
  {
    assert ID <= t <==> OccursAt(t, ID, 0);
    if i == 0 {
      assert t[..0] + id == id;
    } else {
      assert !OccursAt(t, ID, 0);
      FirstInTail(t, i);
      ReplaceFirst(t[1..], id, i - 1);
      assert Replace(t, id) == [t[0]] + Replace(t[1..], id);
      OneStepOn(t, id, i, Replace(t[i + 4..], id));
    }
  }

  lemma OneStepOn(t: string, id: string, i: nat, rest: string)
    requires 0 < i && i + 4 <= |t|
    ensures t[1..][i - 1 + 4..] == t[i + 4..]
    ensures [t[0]] + (t[1..][..i - 1] + id + rest) == t[..i] + id + rest
  {
    assert t[1..][..i - 1] == t[1..i] && t[..i] == [t[0]] + t[1..i];
  }

  lemma ReplaceInjective(t: string, a: string, b: string)
    requires Contains(t, ID) && Replace(t, a) == Replace(t, b)
    ensures a == b
  {
    HolesCountOccurrences(t);
    ReplaceLength(t, a);
    ReplaceLength(t, b);
    SameMultipleSameFactor(Holes(t), |a|, |b|);
    ReplaceSameLengthInjective(t, a, b);
  }

  /** Substitution is injective in the id exactly when the template has a placeholder. */
  lemma ReplaceInjectiveIff(t: string)
    ensures Contains(t, ID) <==>
            forall a, b :: Replace(t, a) == Replace(t, b) ==> a == b
  {
    if Contains(t, ID) {
      forall a, b | Replace(t, a) == Replace(t, b)
        ensures a == b
      {
        ReplaceInjective(t, a, b);
      }
    } else {
      HolesCountOccurrences(t);
      ReplaceWithoutHoles(t, "a");
      ReplaceWithoutHoles(t, "b");
      assert "a"[0] != "b"[0];
    }
  }

  datatype Schema = Schema(
    market: string,
    platformStats: string,
    userBets: string,
    oracleResult: string,
    healthCheck: string)

  const FIELDS: seq<string> := ["market", "platform_stats", "user_bets", "oracle_result", "health_check"]
  const ID_REQUIRED: seq<string> := ["market", "user_bets", "oracle_result"]
  const NON_EMPTY: seq<string> := ["platform_stats", "health_check"]

  function Template(s: Schema, field: string): string {
    if field == "market" then s.market
    else if field == "platform_stats" then s.platformStats
    else if field == "user_bets" then s.userBets
    else if field == "oracle_result" then s.oracleResult
    else s.healthCheck
  }

  /** The fields among `fields` that `template` mentions as `{field}`, in order. */
  function References(template: string, fields: seq<string>): seq<string> {
    if fields == [] then []
    else
      (if Contains(template, "{" + fields[0] + "}") then [fields[0]] else [])
      + References(template, fields[1..])
  }

  lemma {:induction false} ReferencesAreMentions(template: string, fields: seq<string>, f: string)
    ensures f in References(template, fields) <==> f in fields && Contains(template, "{" + f + "}")
  {
    if fields != [] {
      ReferencesAreMentions(template, fields[1..], f);
    }
  }

  function FieldDeps(s: Schema): Graph {
    map f | f in FIELDS :: References(Template(s, f), FIELDS)
  }

  datatype SchemaError = EmptyTemplate(field: string) | MissingId(field: string) | Circular(cycle: seq<string>)

  function IdErrors(s: Schema, fields: seq<string>): seq<SchemaError> {
    if fields == [] then []
    else
      IdErrors(s, fields[..|fields| - 1]) + IdError(s, fields[|fields| - 1])
  }

  function IdError(s: Schema, f: string): seq<SchemaError> {
    if Template(s, f) == [] then [EmptyTemplate(f)]
    else if !Contains(Template(s, f), ID) then [MissingId(f)] else []
  }

  function EmptyErrors(s: Schema, fields: seq<string>): seq<SchemaError> {
    if fields == [] then []
    else
      var f := fields[|fields| - 1];
      EmptyErrors(s, fields[..|fields| - 1])
      + (if Template(s, f) == [] then [EmptyTemplate(f)] else [])
  }

  lemma {:induction false} NoIdErrors(s: Schema, fields: seq<string>)
    ensures IdErrors(s, fields) == [] <==> forall f :: f in fields ==> Contains(Template(s, f), ID)
  {
    if fields != [] {
      var front, last := fields[..|fields| - 1], fields[|fields| - 1];
      NoIdErrors(s, front);
      assert forall f :: f in fields <==> f in front || f == last;
      assert IdError(s, last) == [] <==> Contains(Template(s, last), ID);
    }
  }

  lemma {:induction false} NoEmptyErrors(s: Schema, fields: seq<string>)
    ensures EmptyErrors(s, fields) == [] <==> forall f :: f in fields ==> Template(s, f) != []
  {
    if fields != [] {
      NoEmptyErrors(s, fields[..|fields| - 1]);
      assert fields == fields[..|fields| - 1] + [fields[|fields| - 1]];
    }
  }

  lemma IdErrorsOneMore(s: Schema, fields: seq<string>, i: nat)
    requires i < |fields|
    ensures IdErrors(s, fields[..i + 1]) == IdErrors(s, fields[..i]) + IdError(s, fields[i])
  {
    assert fields[..i + 1][..i] == fields[..i];
  }

  lemma EmptyErrorsOneMore(s: Schema, fields: seq<string>, i: nat)
    requires i < |fields|
    ensures EmptyErrors(s, fields[..i + 1])
            == EmptyErrors(s, fields[..i]) + if Template(s, fields[i]) == [] then [EmptyTemplate(fields[i])] else []
  {
    assert fields[..i + 1][..i] == fields[..i];
  }

  ghost predicate IsField(f: string) {
    f == "market" || f == "platform_stats" || f == "user_bets" || f == "oracle_result" || f == "health_check"
  }

  /** The template of field f contains the name of field g in braces. */
  ghost predicate Mentions(s: Schema, f: string, g: string) {
    && IsField(g)
    && (|| (f == "market" && Contains(s.market, "{" + g + "}"))
        || (f == "platform_stats" && Contains(s.platformStats, "{" + g + "}"))
        || (f == "user_bets" && Contains(s.userBets, "{" + g + "}"))
        || (f == "oracle_result" && Contains(s.oracleResult, "{" + g + "}"))
        || (f == "health_check" && Contains(s.healthCheck, "{" + g + "}")))
  }

  /** A walk from mention to mention that comes back to its start. */
  ghost predicate Circle(s: Schema, w: seq<string>) {
    && |w| >= 2 && w[0] == w[|w| - 1]
    && forall i :: 0 < i < |w| ==> Mentions(s, w[i - 1], w[i])
  }

  ghost predicate SelfReferential(s: Schema) {
    exists w :: Circle(s, w)
  }

  lemma FieldNames(f: string)
    ensures f in FIELDS <==> IsField(f)
  {
    assert FIELDS[0] == "market" && FIELDS[1] == "platform_stats" && FIELDS[2] == "user_bets";
    assert FIELDS[3] == "oracle_result" && FIELDS[4] == "health_check";
  }

  lemma TemplateOf(s: Schema, f: string, g: string)
    requires IsField(f) && IsField(g)
    ensures Contains(Template(s, f), "{" + g + "}") <==> Mentions(s, f, g)
  {
    var market, stats, bets, oracle := "market", "platform_stats", "user_bets", "oracle_result";
    assert |market| == 6 && |stats| == 14 && |bets| == 9 && |oracle| == 13 && |"health_check"| == 12;
  }

  /** The dependency graph has an edge exactly where one template mentions another field. */
  lemma EdgeIffMentions(s: Schema, f: string, g: string)
    ensures Edge(FieldDeps(s), f, g) <==> Mentions(s, f, g)
  {
    FieldNames(f);
    FieldNames(g);
    if IsField(f) {
      ReferencesAreMentions(Template(s, f), FIELDS, g);
      if IsField(g) {
        TemplateOf(s, f, g);
      }
    }
  }

  lemma ClosedWalkIffCircle(s: Schema, w: seq<string>)
    ensures ClosedWalk(FieldDeps(s), w) <==> Circle(s, w)
  {
    forall i | 0 < i < |w|
      ensures Edge(FieldDeps(s), w[i - 1], w[i]) <==> Mentions(s, w[i - 1], w[i])
    {
      EdgeIffMentions(s, w[i - 1], w[i]);
    }
  }

  lemma CyclicIffSelfReferential(s: Schema)
    ensures Cyclic(FieldDeps(s)) <==> SelfReferential(s)
  {
    forall w
      ensures ClosedWalk(FieldDeps(s), w) <==> Circle(s, w)
    {
      ClosedWalkIffCircle(s, w);
    }
  }

  /** What startup validation is meant to guarantee. */
  ghost predicate Sound(s: Schema) {
    && Contains(s.market, "{id}") && Contains(s.userBets, "{id}") && Contains(s.oracleResult, "{id}")
    && s.platformStats != "" && s.healthCheck != ""
    && !SelfReferential(s)
  }

  /** A template that mentions its own field, or one that mentions it back, is never sound. */
  lemma MentionedBack(s: Schema, f: string, g: string)
    requires Mentions(s, f, g) && (f == g || Mentions(s, g, f))
    ensures !Sound(s)
  {
    if f == g {
      assert Circle(s, [f, f]);
    } else {
      assert Circle(s, [f, g, f]);
    }
  }

  /** The two template loops of validation. */
  method TemplateErrors(s: Schema, withId: seq<string>, nonEmpty: seq<string>) returns (errors: seq<SchemaError>)
    ensures errors == IdErrors(s, withId) + EmptyErrors(s, nonEmpty)
  {
    errors := [];
    for i := 0 to |withId|
      invariant errors == IdErrors(s, withId[..i])
    {
      var name := withId[i];
      var template := Template(s, name);
      if template == [] {
        errors := errors + [EmptyTemplate(name)];
      } else if !Contains(template, ID) {
        errors := errors + [MissingId(name)];
      }
      IdErrorsOneMore(s, withId, i);
    }
    assert withId[..|withId|] == withId;
    ghost var idErrors := errors;
    for i := 0 to |nonEmpty|
      invariant errors == idErrors + EmptyErrors(s, nonEmpty[..i])
    {
      var name := nonEmpty[i];
      ghost var sofar := EmptyErrors(s, nonEmpty[..i]);
      EmptyErrorsOneMore(s, nonEmpty, i);
      if Template(s, name) == [] {
        errors := errors + [EmptyTemplate(name)];
        ConcatAssociative(idErrors, sofar, [EmptyTemplate(name)]);
      }
    }
    assert nonEmpty[..|nonEmpty|] == nonEmpty;
  }

  /** Collects every problem; succeeds exactly on the sound schemas. */
  method Validate(s: Schema) returns (r: Result<(), seq<SchemaError>>)
    ensures r.Ok? <==> Sound(s)
    ensures r.Err? && !SelfReferential(s) ==> r.error == IdErrors(s, ID_REQUIRED) + EmptyErrors(s, NON_EMPTY)
    ensures SelfReferential(s) ==>
              exists c :: Circle(s, c) && NoDuplicates(c[1..])
                          && r == Err(IdErrors(s, ID_REQUIRED) + EmptyErrors(s, NON_EMPTY) + [Circular(c)])
  {
    var errors := TemplateErrors(s, ID_REQUIRED, NON_EMPTY);
    var cycle := DetectCycle(FIELDS, FieldDeps(s));
    CyclicIffSelfReferential(s);
    if cycle.Some? {
      errors := errors + [Circular(cycle.value)];
      ClosedWalkIffCircle(s, cycle.value);
    }
    SoundIffNoErrors(s);
    r := if errors == [] then Ok(()) else Err(errors);
  }

  /** What is wrong with a template that needs a placeholder. */
  function IdProblem(name: string, template: string): seq<SchemaError> {
    if template == "" then [EmptyTemplate(name)]
    else if Contains(template, "{id}") then [] else [MissingId(name)]
  }

  function EmptyProblem(name: string, template: string): seq<SchemaError> {
    if template == "" then [EmptyTemplate(name)] else []
  }

  /** The template problems, one by one and in order. */
  lemma TemplateProblems(s: Schema)
    ensures IdErrors(s, ID_REQUIRED)
            == IdProblem("market", s.market) + IdProblem("user_bets", s.userBets)
               + IdProblem("oracle_result", s.oracleResult)
    ensures EmptyErrors(s, NON_EMPTY)
            == EmptyProblem("platform_stats", s.platformStats) + EmptyProblem("health_check", s.healthCheck)
  {
    FieldTemplates(s);
    assert ID_REQUIRED[..2] == ["market", "user_bets"] && ID_REQUIRED[..2][..1] == ["market"];
    assert ["market"][..0] == [] && NON_EMPTY[..1] == ["platform_stats"] && ["platform_stats"][..0] == [];
    assert IdErrors(s, ["market"]) == IdProblem("market", s.market);
    assert IdErrors(s, ID_REQUIRED[..2]) == IdErrors(s, ["market"]) + IdProblem("user_bets", s.userBets);
    assert EmptyErrors(s, ["platform_stats"]) == EmptyProblem("platform_stats", s.platformStats);
  }

  lemma FieldTemplates(s: Schema)
    ensures Template(s, "market") == s.market && Template(s, "user_bets") == s.userBets
    ensures Template(s, "oracle_result") == s.oracleResult
    ensures Template(s, "platform_stats") == s.platformStats && Template(s, "health_check") == s.healthCheck
  {
    var market, stats, bets, oracle := "market", "platform_stats", "user_bets", "oracle_result";
    assert |market| == 6 && |stats| == 14 && |bets| == 9 && |oracle| == 13 && |"health_check"| == 12;
  }

  lemma ListedFields(s: Schema)
    ensures (forall f :: f in ID_REQUIRED ==> Contains(Template(s, f), ID)) <==>
            Contains(s.market, ID) && Contains(s.userBets, ID) && Contains(s.oracleResult, ID)
    ensures (forall f :: f in NON_EMPTY ==> Template(s, f) != []) <==>
            s.platformStats != [] && s.healthCheck != []
  {
    var market, stats, bets, oracle, health :=
      "market", "platform_stats", "user_bets", "oracle_result", "health_check";
    assert |market| == 6 && |stats| == 14 && |bets| == 9 && |oracle| == 13 && |health| == 12;
    assert ID_REQUIRED == [market, bets, oracle] && NON_EMPTY == [stats, health];
    assert Template(s, market) == s.market && Template(s, bets) == s.userBets;
    assert Template(s, oracle) == s.oracleResult;
    assert Template(s, stats) == s.platformStats && Template(s, health) == s.healthCheck;
    assert forall f :: f in ID_REQUIRED <==> f == market || f == bets || f == oracle;
    assert forall f :: f in NON_EMPTY <==> f == stats || f == health;
  }

  lemma SoundIffNoErrors(s: Schema)
    ensures Sound(s) <==>
            IdErrors(s, ID_REQUIRED) == [] && EmptyErrors(s, NON_EMPTY) == [] && !Cyclic(FieldDeps(s))
  {
    NoIdErrors(s, ID_REQUIRED);
    NoEmptyErrors(s, NON_EMPTY);
    ListedFields(s);
    CyclicIffSelfReferential(s);
  }

  function MarketKey(s: Schema, marketId: int): string {
    Replace(s.market, IntText(marketId))
  }

  function UserBetsKey(s: Schema, user: string): string {
    Replace(s.userBets, user)
  }

  function OracleResultKey(s: Schema, marketId: int): string {
    Replace(s.oracleResult, IntText(marketId))
  }

  /** The template has a placeholder at offset i and no other one. */
  ghost predicate OnlyPlaceholder(t: string, i: nat) {
    && OccursAt(t, "{id}", i) && (forall j :: 0 <= j < i ==> !OccursAt(t, "{id}", j))
    && !Contains(t[i + 4..], "{id}")
  }

  lemma FillOnly(t: string, id: string, i: nat)
    requires OnlyPlaceholder(t, i)
    ensures Replace(t, id) == t[..i] + id + t[i + 4..]
  {
    ReplaceFirst(t, id, i);
    HolesCountOccurrences(t[i + 4..]);
    ReplaceWithoutHoles(t[i + 4..], id);
  }

  /** Each key is its own template with the id in place of the placeholder. */
  lemma KeysFillTemplates(s: Schema, id: int, user: string, i: nat)
    ensures OnlyPlaceholder(s.market, i) ==> MarketKey(s, id) == s.market[..i] + IntText(id) + s.market[i + 4..]
    ensures OnlyPlaceholder(s.userBets, i) ==> UserBetsKey(s, user) == s.userBets[..i] + user + s.userBets[i + 4..]
    ensures OnlyPlaceholder(s.oracleResult, i) ==>
              OracleResultKey(s, id) == s.oracleResult[..i] + IntText(id) + s.oracleResult[i + 4..]
  {
    if OnlyPlaceholder(s.market, i) {
      FillOnly(s.market, IntText(id), i);
    }
    if OnlyPlaceholder(s.userBets, i) {
      FillOnly(s.userBets, user, i);
    }
    if OnlyPlaceholder(s.oracleResult, i) {
      FillOnly(s.oracleResult, IntText(id), i);
    }
  }

  /** In a schema that passes validation, keys of one kind identify what they were built from. */
  lemma ValidatedKeysAreDistinct(s: Schema, m1: int, m2: int, u1: string, u2: string)
    requires Sound(s)
    ensures MarketKey(s, m1) == MarketKey(s, m2) <==> m1 == m2
    ensures OracleResultKey(s, m1) == OracleResultKey(s, m2) <==> m1 == m2
    ensures UserBetsKey(s, u1) == UserBetsKey(s, u2) <==> u1 == u2
  {
    if MarketKey(s, m1) == MarketKey(s, m2) {
      ReplaceInjective(s.market, IntText(m1), IntText(m2));
      IntTextInjective(m1, m2);
    }
    if OracleResultKey(s, m1) == OracleResultKey(s, m2) {
      ReplaceInjective(s.oracleResult, IntText(m1), IntText(m2));
      IntTextInjective(m1, m2);
    }
    if UserBetsKey(s, u1) == UserBetsKey(s, u2) {
      ReplaceInjective(s.userBets, u1, u2);
    }
  }
}
