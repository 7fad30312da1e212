/**
 * The signed index-entry validator of the F-Droid repository sync.
 *
 * A downloaded index jar is accepted only if its fixed member `entry.json`
 * exists, parses, has a signer whose fingerprint can be derived, and the
 * repository's pinned fingerprint does not reject that fingerprint; only then
 * are the parsed entry and the fingerprint handed to the caller's sink.
 *
 * The jar reader, the index parser, the code-signer and fingerprint extensions
 * and `Fingerprint.check` are not part of this model: each member carries its
 * signer's fingerprint, while the parser and `check` are parameters about
 * which nothing is assumed.
 * The visible effects of one validation are recorded as a trace of steps, so
 * that their order and the single sink call can be stated.
 */
module EntryValidation {
  import opened Wrappers

  /** The only jar member the validator looks up (`JSON_NAME`). */
  const JsonName: string := "entry.json"

  type Byte = bv8

  /** A parsed index entry; its schema belongs to the external index parser. */
  type Entry(==)

  /** What the external index parser makes of a member's bytes. */
  datatype ParseResult = Parsed(entry: Entry) | Malformed

  /**
   * One jar member: its bytes and the fingerprint of its code signer's
   * certificate (`None` when the signer extensions cannot produce one).
   */
  datatype JarEntry = JarEntry(bytes: seq<Byte>, signerFingerprint: Option<string>)

  /** The external index parser (`IndexParser.parseEntry`), applied to a member's bytes. */
  type Parser = seq<Byte> -> ParseResult

  /** A downloaded jar, as the members it holds by name. */
  datatype Jar = Jar(entries: map<string, JarEntry>)

  datatype Fingerprint = Fingerprint(value: string)

  /** The repository being synchronised; only its pinned fingerprint is used. */
  datatype Repo = Repo(address: string, fingerprint: Fingerprint)

  /** Why a validation failed. */
  datatype Failure =
    | MissingEntry(name: string)                              // `requireNotNull` on the jar lookup
    | ParseFailure                                            // raised by the index parser
    | UnsignedEntry                                           // raised by the signer extensions
    | Rejected(expected: Fingerprint, acquired: string)       // the `ValidationException`

  /** What one validation ends with: the sink was called, or a failure was raised. */
  datatype Outcome = Verified(entry: Entry, fingerprint: string) | Failed(failure: Failure)

  /** An observable step of a validation, in the order it happens. */
  datatype Step =
    | LookUp(name: string)                                    // `jar.getJarEntry(name)`
    | Parse(bytes: seq<Byte>)                                 // `IndexParser.parseEntry` on a member's stream
    | DeriveFingerprint                                       // `codeSigner.certificate.fingerprint()`
    | Check(pinned: Fingerprint, acquired: Fingerprint)       // `repo.fingerprint.check(...)`
    | Sink(entry: Entry, fingerprint: string)                 // `fingerprintBlock(entry, fingerprint)`

  datatype Run = Run(steps: seq<Step>, outcome: Outcome)

  /** The text of the failures the validator raises itself; the others carry their collaborator's text. */
  function Message(f: Failure): (m: Option<string>)
    ensures m.Some? <==> f.MissingEntry? || f.Rejected?
  {
    match f
    case MissingEntry(name) => Some("No entry for: " + name)
    case Rejected(expected, acquired) =>
      Some("Expected Fingerprint: " + expected.value + ", Acquired Fingerprint: " + acquired)
    case _ => None
  }

  /** `t` occurs in `s` as a contiguous piece. */
  predicate Contains(s: string, t: string) {
    exists k | 0 <= k <= |s| :: t <= s[k..]
  }

  /** The sink calls among the steps of a trace, in order. */
  function SinkCalls(steps: seq<Step>): (r: seq<Step>)
    ensures |r| <= |steps|
    ensures forall s :: s in r ==> s.Sink? && s in steps
    ensures (forall s :: s in steps ==> !s.Sink?) ==> r == []
  {
    if steps == [] then []
    else (if steps[0].Sink? then [steps[0]] else []) + SinkCalls(steps[1..])
  }

  lemma {:induction false} SinkCallsAppend(a: seq<Step>, b: seq<Step>)
    ensures SinkCalls(a + b) == SinkCalls(a) + SinkCalls(b)
  {
    if a == [] {
      assert a + b == b;
    } else {
      assert (a + b)[1..] == a[1..] + b;
      SinkCallsAppend(a[1..], b);
    }
  }

  /**
   * `getEntryAndFingerprint`: look up `entry.json`, parse its stream, then
   * derive its signer's fingerprint. A failure at one stage stops the rest.
   */
  function GetEntryAndFingerprint(jar: Jar, parse: Parser): (r: (seq<Step>, Result<(Entry, string), Failure>))
    ensures |r.0| >= 1 && r.0[0] == LookUp(JsonName)
    ensures forall s :: s in r.0 ==> !s.Sink? && !s.Check?
    ensures r.1.Success? <==>
      JsonName in jar.entries && parse(jar.entries[JsonName].bytes).Parsed? && jar.entries[JsonName].signerFingerprint.Some?
    ensures r.1.Success? ==>
      r.1.value == (parse(jar.entries[JsonName].bytes).entry, jar.entries[JsonName].signerFingerprint.value)
    // the trace is a prefix of: look up, parse the member's bytes, derive the fingerprint
    ensures JsonName !in jar.entries ==> r.0 == [LookUp(JsonName)]
    ensures JsonName in jar.entries ==>
      r.0 <= [LookUp(JsonName), Parse(jar.entries[JsonName].bytes), DeriveFingerprint] && |r.0| >= 2
    ensures r.1.Success? || r.1.error.UnsignedEntry? <==> |r.0| == 3
    // the rejection is never raised before the check
    ensures r.1.Failure? ==> !r.1.error.Rejected?
  {
    if JsonName !in jar.entries then
      ([LookUp(JsonName)], Failure(MissingEntry(JsonName)))
    else
      var member := jar.entries[JsonName];
      var parsedSteps := [LookUp(JsonName), Parse(member.bytes)];
      match parse(member.bytes)
      case Malformed => (parsedSteps, Failure(ParseFailure))
      case Parsed(entry) =>
        var steps := parsedSteps + [DeriveFingerprint];
        match member.signerFingerprint
        case None => (steps, Failure(UnsignedEntry))
        case Some(fingerprint) => (steps, Success((entry, fingerprint)))
  }

  /**
   * The reference condition for acceptance: `entry.json` exists, parses, has a
   * derivable signer fingerprint, and `check` of the pinned fingerprint
   * against it is false.
   */
  predicate Accepts(jar: Jar, parse: Parser, repo: Repo, check: (Fingerprint, Fingerprint) -> bool) {
    && JsonName in jar.entries
    && parse(jar.entries[JsonName].bytes).Parsed?
    && jar.entries[JsonName].signerFingerprint.Some?
    && !check(repo.fingerprint, Fingerprint(jar.entries[JsonName].signerFingerprint.value))
  }

  /**
   * `validate`: obtain the entry and fingerprint, reject when `check` is
   * true, and only otherwise call the sink once with both.
   */
  function Validate(jar: Jar, parse: Parser, repo: Repo, check: (Fingerprint, Fingerprint) -> bool): (r: Run)
    // the sink is reached exactly when the reference condition holds
    ensures r.outcome.Verified? <==> Accepts(jar, parse, repo, check)
    // and with the entry and the fingerprint of the same `entry.json` member
    ensures r.outcome.Verified? ==>
      r.outcome.entry == parse(jar.entries[JsonName].bytes).entry &&
      r.outcome.fingerprint == jar.entries[JsonName].signerFingerprint.value
    // exactly one sink call on success, none on any failure, and it is the last step
    ensures SinkCalls(r.steps) == if r.outcome.Verified? then [Sink(r.outcome.entry, r.outcome.fingerprint)] else []
    ensures r.outcome.Verified? ==> r.steps[|r.steps| - 1] == Sink(r.outcome.entry, r.outcome.fingerprint)
    // the only member ever looked up is `entry.json`, and it is looked up first
    ensures |r.steps| >= 1 && r.steps[0] == LookUp(JsonName)
    // a run that reaches the check went through every step in order: look up,
    // parse, derive, check, and only on success the sink
    ensures r.outcome.Verified? ==>
      r.steps == [LookUp(JsonName), Parse(jar.entries[JsonName].bytes), DeriveFingerprint,
                  Check(repo.fingerprint, Fingerprint(r.outcome.fingerprint)),
                  Sink(r.outcome.entry, r.outcome.fingerprint)]
    ensures r.outcome.Failed? && r.outcome.failure.Rejected? ==>
      && JsonName in jar.entries
      && r.steps ==
        [LookUp(JsonName), Parse(jar.entries[JsonName].bytes), DeriveFingerprint,
         Check(repo.fingerprint, Fingerprint(r.outcome.failure.acquired))]
  {
    var (steps, got) := GetEntryAndFingerprint(jar, parse);
    match got
    case Failure(f) => Run(steps, Failed(f))
    case Success((entry, fingerprint)) =>
      var acquired := Fingerprint(fingerprint);
      var checked := steps + [Check(repo.fingerprint, acquired)];
      var member := jar.entries[JsonName];
      assert steps == [LookUp(JsonName), Parse(member.bytes), DeriveFingerprint];
      assert checked == [LookUp(JsonName), Parse(member.bytes), DeriveFingerprint, Check(repo.fingerprint, acquired)];
      if check(repo.fingerprint, acquired) then
        Run(checked, Failed(Rejected(repo.fingerprint, fingerprint)))
      else
        var sunk := checked + [Sink(entry, fingerprint)];
        assert SinkCalls(checked) == [];
        SinkCallsAppend(checked, [Sink(entry, fingerprint)]);
        assert SinkCalls(sunk) == [Sink(entry, fingerprint)];
        Run(sunk, Verified(entry, fingerprint))
  }

  /**
   * The order of a validation's steps: only `entry.json` is looked up, the
   * parser sees exactly its bytes, parsing precedes fingerprinting, which
   * precedes the check, and a true `check` always ends in rejection.
   */
  lemma ValidationOrder(jar: Jar, parse: Parser, repo: Repo, check: (Fingerprint, Fingerprint) -> bool)
    ensures var steps := Validate(jar, parse, repo, check).steps;
      && (forall s :: s in steps && s.LookUp? ==> s.name == JsonName)
      && (forall s :: s in steps && s.Parse? ==> JsonName in jar.entries && s.bytes == jar.entries[JsonName].bytes)
      && (forall i, j :: 0 <= i < |steps| && 0 <= j < |steps| && steps[i].Parse? && steps[j].DeriveFingerprint? ==> i < j)
      && (forall i, j :: 0 <= i < |steps| && 0 <= j < |steps| && steps[i].DeriveFingerprint? && steps[j].Check? ==> i < j)
    ensures forall s :: s in Validate(jar, parse, repo, check).steps && s.Check? && check(s.pinned, s.acquired) ==>
      Validate(jar, parse, repo, check).outcome == Failed(Rejected(repo.fingerprint, s.acquired.value))
  {
  }


  /** Without `entry.json` the validation fails after the lookup alone, whatever else holds. */
  lemma MissingEntryFails(jar: Jar, parse: Parser, repo: Repo, check: (Fingerprint, Fingerprint) -> bool)
    requires JsonName !in jar.entries
    ensures Validate(jar, parse, repo, check) == Run([LookUp(JsonName)], Failed(MissingEntry(JsonName)))
    ensures Message(Validate(jar, parse, repo, check).outcome.failure) == Some("No entry for: entry.json")
  {
    assert "No entry for: " + JsonName == "No entry for: entry.json";
  }

  /**
   * A malformed `entry.json` is the reported failure even when its signer is
   * missing or would be rejected: fingerprinting, the check and the sink never happen.
   */
  lemma ParseFailureWins(jar: Jar, parse: Parser, repo: Repo, check: (Fingerprint, Fingerprint) -> bool)
    requires JsonName in jar.entries && parse(jar.entries[JsonName].bytes).Malformed?
    ensures Validate(jar, parse, repo, check) ==
      Run([LookUp(JsonName), Parse(jar.entries[JsonName].bytes)], Failed(ParseFailure))
  {
  }

  /** A parsed entry without a derivable signer fingerprint fails before any check. */
  lemma UnsignedEntryFails(jar: Jar, parse: Parser, repo: Repo, check: (Fingerprint, Fingerprint) -> bool)
    requires JsonName in jar.entries && parse(jar.entries[JsonName].bytes).Parsed?
    requires jar.entries[JsonName].signerFingerprint.None?
    ensures Validate(jar, parse, repo, check).outcome == Failed(UnsignedEntry)
    ensures forall s :: s in Validate(jar, parse, repo, check).steps ==> !s.Check? && !s.Sink?
  {
  }

  /**
   * When `check` of the pinned fingerprint against the acquired one is true,
   * the validation raises the rejection, whose message names both, and the
   * sink is not called.
   */
  lemma CheckTrueRejects(jar: Jar, parse: Parser, repo: Repo, check: (Fingerprint, Fingerprint) -> bool)
    requires JsonName in jar.entries && parse(jar.entries[JsonName].bytes).Parsed?
    requires jar.entries[JsonName].signerFingerprint.Some?
    requires check(repo.fingerprint, Fingerprint(jar.entries[JsonName].signerFingerprint.value))
    ensures Validate(jar, parse, repo, check).outcome ==
      Failed(Rejected(repo.fingerprint, jar.entries[JsonName].signerFingerprint.value))
    ensures SinkCalls(Validate(jar, parse, repo, check).steps) == []
    ensures Contains(Message(Validate(jar, parse, repo, check).outcome.failure).value, repo.fingerprint.value)
    ensures Contains(Message(Validate(jar, parse, repo, check).outcome.failure).value, jar.entries[JsonName].signerFingerprint.value)
  {
    RejectionMessageNamesBoth(repo.fingerprint, jar.entries[JsonName].signerFingerprint.value);
  }

  /** The rejection message contains both the expected and the acquired fingerprint. */
  lemma RejectionMessageNamesBoth(expected: Fingerprint, acquired: string)
    ensures Contains(Message(Rejected(expected, acquired)).value, expected.value)
    ensures Contains(Message(Rejected(expected, acquired)).value, acquired)
  {
    var head := "Expected Fingerprint: ";
    var middle := ", Acquired Fingerprint: ";
    var m := Message(Rejected(expected, acquired)).value;
    assert m == head + expected.value + middle + acquired;
    assert expected.value <= m[|head|..];
    assert m[|head| + |expected.value| + |middle|..] == acquired;
  }

  /**
   * Validation reads nothing of the jar but its `entry.json` member, and the
   * parser matters only through what it makes of that member's bytes.
   */
  lemma OnlyEntryJsonMatters(jar1: Jar, jar2: Jar, parse1: Parser, parse2: Parser, repo: Repo,
                             check: (Fingerprint, Fingerprint) -> bool)
    requires (JsonName in jar1.entries) == (JsonName in jar2.entries)
    requires JsonName in jar1.entries ==>
      jar1.entries[JsonName] == jar2.entries[JsonName] &&
      parse1(jar1.entries[JsonName].bytes) == parse2(jar1.entries[JsonName].bytes)
    ensures Validate(jar1, parse1, repo, check) == Validate(jar2, parse2, repo, check)
  {
  }
}
