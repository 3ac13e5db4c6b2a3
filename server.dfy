/**
 * The `POST /api/waitlist` handler of Server.js: validate the body's `email`,
 * load `waitlist.json` (absent means empty), reject a case-insensitive
 * duplicate, append `{email, ts}` and overwrite the file.
 */
module Server {
  import opened Wrappers
  import opened Email
  import opened Waitlist

  /**
   * `waitlist.json` as the handler finds it. `Malformed` is any content on
   * which the handler throws: text `JSON.parse` rejects, JSON that is not an
   * array, or records without a string `email`.
   */
  datatype WaitlistFile = Missing | Malformed | Stored(entries: seq<Entry>)

  /** The file-system calls the handler makes: `existsSync`, `readFileSync`, `writeFileSync`. */
  datatype FileOp = Probe | Read | Write(entries: seq<Entry>)

  /**
   * How a request ends: 200 `{success:true}`, 400 `Invalid email`,
   * 409 `Already on waitlist`, or an exception the handler does not catch.
   */
  datatype Outcome = Success | InvalidEmail | AlreadyOnWaitlist | Uncaught

  /** The outcome, the file afterwards and the file-system calls made, in order. */
  datatype Reply = Reply(outcome: Outcome, file: WaitlistFile, ops: seq<FileOp>)

  /** The status code the handler sets; an uncaught exception sets none. */
  function StatusCode(o: Outcome): (code: nat)
    requires !o.Uncaught?
    ensures (code == 200) == o.Success? && (code == 400) == o.InvalidEmail? && (code == 409) == o.AlreadyOnWaitlist?
  {
    match o
    case Success => 200
    case InvalidEmail => 400
    case AlreadyOnWaitlist => 409
  }

  /** `email && regex.test(email)`: present, non-empty and matching the pattern. */
  predicate Acceptable(email: Option<string>) {
    email.Some? && PassesEmailCheck(email.value)
  }

  /** What the handler reads from the file when it can; a missing file reads as `[]`. */
  function Loaded(file: WaitlistFile): seq<Entry>
    requires !file.Malformed?
  {
    if file.Missing? then [] else file.entries
  }

  /** A file with entries keeps the store invariant. */
  ghost predicate KeepsInvariant(file: WaitlistFile) {
    file.Stored? ==> Unique(file.entries)
  }

  /** One request to the handler, body field `email`, at time `now`. */
  function Register(file: WaitlistFile, email: Option<string>, now: string): (r: Reply)
    // 400 exactly for a missing or non-matching address, and then the file is neither read nor written
    ensures r.outcome == InvalidEmail <==> !Acceptable(email)
    ensures r.outcome == InvalidEmail ==> r.ops == []
    // an unreadable file aborts the request after reading it and before any write
    ensures r.outcome == Uncaught <==> Acceptable(email) && file.Malformed?
    ensures r.outcome == Uncaught ==> r.ops == [Probe, Read]
    // 409 exactly when a stored entry matches case-insensitively
    ensures r.outcome == AlreadyOnWaitlist <==> Acceptable(email) && file.Stored? && Contains(file.entries, email.value)
    // only success writes, and it writes the old list plus one entry holding the raw address
    ensures r.outcome != Success ==> r.file == file && forall k :: 0 <= k < |r.ops| ==> !r.ops[k].Write?
    ensures r.outcome == Success ==>
              !file.Malformed? && r.file.Stored? &&
              r.file.entries == Loaded(file) + [Entry(email.value, now)] &&
              r.ops == [Probe] + (if file.Stored? then [Read] else []) + [Write(r.file.entries)]
    // the store invariant survives every request
    ensures KeepsInvariant(file) ==> KeepsInvariant(r.file)
  {
    if !Acceptable(email) then Reply(InvalidEmail, file, [])
    else if file.Malformed? then Reply(Uncaught, file, [Probe, Read])
    else
      var probe := [Probe] + (if file.Stored? then [Read] else []);
      match Admit(Loaded(file), email.value, now)
      case None => Reply(AlreadyOnWaitlist, file, probe)
      case Some(list) =>
        assert list == Loaded(file) + [Entry(email.value, now)];
        Reply(Success, Stored(list), probe + [Write(list)])
  }

  /** A missing file is handled exactly like a file holding `[]`, except that it is not read. */
  lemma MissingActsAsEmpty(email: Option<string>, now: string)
    ensures Register(Missing, email, now).outcome == Register(Stored([]), email, now).outcome
    ensures Register(Missing, email, now).outcome != InvalidEmail ==>
              Register(Missing, email, now).file == Register(Stored([]), email, now).file
  {
  }

  /**
   * Registering an address that is not yet on the list succeeds; a case
   * variant of it then gets 409, the file stays as the first call left it, and
   * exactly one entry matches the address.
   */
  lemma RegisterThenCaseVariant(file: WaitlistFile, e: string, e': string, t: string, t': string)
    requires Acceptable(Some(e)) && SameEmail(e, e')
    requires file.Missing? || (file.Stored? && !Contains(file.entries, e))
    ensures Register(file, Some(e), t).outcome == Success
    ensures Register(Register(file, Some(e), t).file, Some(e'), t').outcome == AlreadyOnWaitlist
    ensures Register(Register(file, Some(e), t).file, Some(e'), t').file == Register(file, Some(e), t).file
    ensures CountMatching(Register(file, Some(e), t).file.entries, e') == 1
  {
    CaseVariantStaysValid(e, e');
    assert Acceptable(Some(e'));
    AdmitThenCaseVariant(Loaded(file), e, e', t, t');
  }

  /** The host: the file the handler reads and writes, and the calls it has made so far. */
  class Host {
    var file: WaitlistFile
    var ops: seq<FileOp>

    constructor (initial: WaitlistFile)
      ensures file == initial && ops == []
    {
      file := initial;
      ops := [];
    }

    /** The handler body, lines 12-27 of Server.js. */
    method PostWaitlist(email: Option<string>, now: string) returns (outcome: Outcome)
      modifies this
      ensures old(ops) <= ops
      ensures Register(old(file), email, now) == Reply(outcome, file, ops[|old(ops)|..])
    {
      if email.None? || email.value == "" || !IsValidEmail(email.value) {
        return InvalidEmail;
      }
      var list: seq<Entry> := [];
      ops := ops + [Probe];
      if !file.Missing? {
        ops := ops + [Read];
        if file.Malformed? {
          return Uncaught;
        }
        list := file.entries;
      }
      if Contains(list, email.value) {
        return AlreadyOnWaitlist;
      }
      list := list + [Entry(email.value, now)];
      file := Stored(list);
      ops := ops + [Write(list)];
      return Success;
    }
  }
}
