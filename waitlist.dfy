/**
 * What the server's `waitlist.json` and the browser's `dringo_waitlist` entry
 * both hold: a list of `{email, ts}` records, and the case-insensitive
 * duplicate test both registration paths run over it.
 */
module Waitlist {
  import opened Wrappers
  import opened Email

  /** One registration: the address as submitted and its ISO-8601 timestamp (opaque here). */
  datatype Entry = Entry(email: string, ts: string)

  /** Two addresses are the same registration when they agree after lower-casing (Server.js:22). */
  predicate SameEmail(a: string, b: string) {
    Lower(a) == Lower(b)
  }

  /** Some entry of the list holds the same address up to case: the duplicate test of Server.js:22 and app.js:147. */
  function Contains(list: seq<Entry>, email: string): (found: bool)
    ensures found <==> exists k :: 0 <= k < |list| && SameEmail(list[k].email, email)
  {
    if list == [] then false
    else
      assert forall k :: 0 < k < |list| ==> list[k] == list[1..][k - 1];
      SameEmail(list[0].email, email) || Contains(list[1..], email)
  }

  /** The store invariant: no two entries are equal under case-insensitive comparison. */
  ghost predicate Unique(list: seq<Entry>) {
    forall i, j :: 0 <= i < j < |list| ==> !SameEmail(list[i].email, list[j].email)
  }

  /** How many entries match `email` case-insensitively. */
  function CountMatching(list: seq<Entry>, email: string): (n: nat)
    ensures n <= |list|
    ensures n == 0 <==> !Contains(list, email)
  {
    if list == [] then 0
    else (if SameEmail(list[0].email, email) then 1 else 0) + CountMatching(list[1..], email)
  }

  /** In a list that keeps the invariant, an address is matched by at most one entry. */
  lemma {:induction false} UniqueMatchesAtMostOnce(list: seq<Entry>, email: string)
    requires Unique(list)
    ensures CountMatching(list, email) <= 1
  {
    if list != [] {
      var rest := list[1..];
      assert Unique(rest) by {
        forall i, j | 0 <= i < j < |rest|
          ensures !SameEmail(rest[i].email, rest[j].email)
        {
          assert rest[i] == list[i + 1] && rest[j] == list[j + 1];
        }
      }
      UniqueMatchesAtMostOnce(rest, email);
      if SameEmail(list[0].email, email) {
        assert !Contains(rest, email) by {
          forall k | 0 <= k < |rest|
            ensures !SameEmail(rest[k].email, email)
          {
            assert rest[k] == list[k + 1];
          }
        }
      }
    }
  }

  /** Appending one entry adds one to the count of exactly the addresses it matches. */
  lemma {:induction false} CountAfterAppend(list: seq<Entry>, e: Entry, email: string)
    ensures CountMatching(list + [e], email)
         == CountMatching(list, email) + (if SameEmail(e.email, email) then 1 else 0)
  {
    if list != [] {
      assert (list + [e])[1..] == list[1..] + [e];
      CountAfterAppend(list[1..], e, email);
    }
  }

  /** Appending an address nobody in the list matches keeps the invariant. */
  lemma AppendKeepsUnique(list: seq<Entry>, e: Entry)
    requires !Contains(list, e.email)
    ensures Unique(list) ==> Unique(list + [e])
  {
  }

  /**
   * The rule both registration paths apply: an address some entry already
   * matches is refused (`None`); any other is appended as one new entry, after
   * which exactly one entry matches it and the invariant still holds.
   */
  function Admit(list: seq<Entry>, email: string, ts: string): (r: Option<seq<Entry>>)
    ensures r.None? <==> Contains(list, email)
    ensures r.Some? ==> |r.value| == |list| + 1 && r.value[..|list|] == list && r.value[|list|] == Entry(email, ts)
    ensures r.Some? ==> CountMatching(r.value, email) == 1
    ensures r.Some? && Unique(list) ==> Unique(r.value)
  {
    if Contains(list, email) then None
    else
      CountAfterAppend(list, Entry(email, ts), email);
      AppendKeepsUnique(list, Entry(email, ts));
      Some(list + [Entry(email, ts)])
  }

  /**
   * Admitting an address and then a case variant of it: the first is appended,
   * the second refused, and exactly one entry matches either spelling.
   */
  lemma AdmitThenCaseVariant(list: seq<Entry>, e: string, e': string, t: string, t': string)
    requires !Contains(list, e) && SameEmail(e, e')
    ensures Admit(list, e, t).Some?
    ensures Admit(Admit(list, e, t).value, e', t').None?
    ensures CountMatching(Admit(list, e, t).value, e') == 1
  {
    var after := Admit(list, e, t).value;
    assert after[|list|].email == e;
    CountAfterAppend(list, Entry(e, t), e');
  }
}
