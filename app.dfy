/**
 * The browser side (app.js): the local fallback store `saveToLocalWaitlist`,
 * `submitWaitlist` and the form's submit handler, the theme toggle and the
 * FAQ accordion toggle.
 */
module App {
  import opened Wrappers
  import opened Email
  import opened Waitlist

  /**
   * What `localStorage` holds under `dringo_waitlist`. `Empty` is no item or
   * the empty string (both read as `[]`); `Malformed` is anything on which the
   * function throws: text `JSON.parse` rejects, JSON that is not an array, or
   * records without a string `email`.
   */
  datatype LocalList = Empty | Malformed | Stored(entries: seq<Entry>)

  /** What `saveToLocalWaitlist` returns and what the store holds afterwards. */
  datatype Saved = Saved(added: bool, held: LocalList)

  /** The list the function works on when the stored text parses. */
  function Items(held: LocalList): seq<Entry>
    requires !held.Malformed?
  {
    if held.Empty? then [] else held.entries
  }

  ghost predicate HeldUnique(held: LocalList) {
    held.Stored? ==> Unique(held.entries)
  }

  /**
   * `saveToLocalWaitlist(email)` when the store holds `held` and `setItem`
   * succeeds exactly when `writable`. It adds exactly when the stored list
   * parses, no entry matches case-insensitively and the write goes through,
   * and then appends one `{email, ts}`; on a duplicate or any failure it
   * answers false and the store keeps what it held.
   */
  function SaveLocally(held: LocalList, writable: bool, email: string, now: string): (r: Saved)
    ensures r.added <==> !held.Malformed? && !Contains(Items(held), email) && writable
    ensures r.added ==> r.held.Stored? && r.held.entries == Items(held) + [Entry(email, now)]
    ensures !r.added ==> r.held == held
    ensures HeldUnique(held) ==> HeldUnique(r.held)
  {
    if held.Malformed? then Saved(false, held)
    else match Admit(Items(held), email, now)
      case None => Saved(false, held)
      case Some(list) =>
        assert list == Items(held) + [Entry(email, now)];
        if writable then Saved(true, Stored(list)) else Saved(false, held)
  }

  /**
   * Saving an address the local list does not hold, and then a case variant
   * of it, answers true then false and leaves one matching entry.
   */
  lemma SaveThenCaseVariant(held: LocalList, e: string, e': string, t: string, t': string)
    requires !held.Malformed? && !Contains(Items(held), e) && SameEmail(e, e')
    ensures SaveLocally(held, true, e, t).added
    ensures !SaveLocally(SaveLocally(held, true, e, t).held, true, e', t').added
    ensures SaveLocally(SaveLocally(held, true, e, t).held, true, e', t').held == SaveLocally(held, true, e, t).held
    ensures CountMatching(SaveLocally(held, true, e, t).held.entries, e') == 1
  {
    AdmitThenCaseVariant(Items(held), e, e', t, t');
  }

  /** The page's `localStorage`, reduced to the two keys the script uses. */
  class LocalStorage {
    var waitlist: LocalList     // under `dringo_waitlist`
    var theme: Option<string>   // under `dringo-theme`
    var writable: bool          // false: `setItem` throws (quota exceeded)

    constructor (waitlist: LocalList, theme: Option<string>, writable: bool)
      ensures this.waitlist == waitlist && this.theme == theme && this.writable == writable
    {
      this.waitlist := waitlist;
      this.theme := theme;
      this.writable := writable;
    }

    /** `localStorage.setItem('dringo-theme', value)`; false when it throws. */
    method SetTheme(value: string) returns (ok: bool)
      modifies this`theme
      ensures ok == writable
      ensures theme == if writable then Some(value) else old(theme)
    {
      ok := writable;
      if ok {
        theme := Some(value);
      }
    }

    /** `saveToLocalWaitlist`, app.js lines 142-156. */
    method SaveToLocalWaitlist(email: string, now: string) returns (added: bool)
      modifies this`waitlist
      ensures SaveLocally(old(waitlist), writable, email, now) == Saved(added, waitlist)
    {
      if waitlist.Malformed? {
        return false;                 // parsing or `some` threw
      }
      var list := Items(waitlist);
      var found := Contains(list, email);
      if !found {
        list := list + [Entry(email, now)];
        if !writable {
          return false;               // `setItem` threw
        }
        waitlist := Stored(list);
      }
      return !found;
    }
  }

  /* ---------- Waitlist form ---------- */

  /** How the awaited `fetch` settles; its response is opaque, so only a throw is observable. */
  datatype Transport = Settled | Threw

  /** `{remote: true}` or `{remote: false, added}`. */
  datatype SubmitResult = RemoteAccepted | LocalFallback(added: bool)

  /** One call of `fetch`, with the address posted and the form as it stood while the call was pending. */
  datatype Request = Request(email: string, buttonDisabled: bool, message: Message)

  /** The texts the script puts in `emailMsg`. */
  datatype Message = Blank | InvalidMessage | SavingMessage | ThanksMessage | SavedLocallyMessage | AlreadyMessage

  /** The literal `textContent` of each message; no two are the same text. */
  function Text(m: Message): (text: string)
    ensures text == "" <==> m == Blank
  {
    match m
    case Blank => ""
    case InvalidMessage => "Please enter a valid email."
    case SavingMessage => "Saving..."
    case ThanksMessage => "Thanks \U{2014} you\U{2019}re on the waitlist!"
    case SavedLocallyMessage => "Saved locally \U{2014} you\U{2019}re on the waitlist! (no server available)"
    case AlreadyMessage => "You\U{2019}re already on the waitlist."
  }

  /** Different messages show different texts, so the user can tell every outcome apart. */
  lemma TextsDiffer(m: Message, m': Message)
    requires m != m'
    ensures Text(m) != Text(m')
  {
  }

  /** The submission got the address onto some list, remotely or locally (app.js:214). */
  predicate Succeeded(result: SubmitResult) {
    result.RemoteAccepted? || result.added
  }

  /**
   * The three-way message choice: thanks for a remote send, "saved locally"
   * for a local add, "already" otherwise. The message names a success exactly
   * when the submission succeeded.
   */
  function ResultMessage(result: SubmitResult): (msg: Message)
    ensures msg == ThanksMessage <==> result.RemoteAccepted?
    ensures msg == SavedLocallyMessage <==> result == LocalFallback(true)
    ensures msg == AlreadyMessage <==> !Succeeded(result)
  {
    if result.RemoteAccepted? then ThanksMessage
    else if result.added then SavedLocallyMessage
    else AlreadyMessage
  }

  /** The email form: the input, the message line, the submit button, and the calls made to `fetch`. */
  class WaitlistForm {
    var input: string            // `emailInput.value`
    var message: Message         // `emailMsg.textContent`
    var focused: bool            // `emailInput.focus()` has been called
    const hasButton: bool        // the form has a `button[type="submit"]`
    var buttonDisabled: bool
    var fetchCalls: seq<Request>
    const store: LocalStorage

    constructor (input: string, hasButton: bool, store: LocalStorage)
      ensures this.input == input && message == Blank && !focused && !buttonDisabled
      ensures this.hasButton == hasButton && this.store == store && fetchCalls == []
    {
      this.input := input;
      message := Blank;
      focused := false;
      this.hasButton := hasButton;
      buttonDisabled := false;
      fetchCalls := [];
      this.store := store;
    }

    /**
     * `submitWaitlist`, app.js lines 158-187. The local store is touched only
     * when `fetch` threw; while the call is pending the button is disabled and
     * the message line is blank.
     */
    method SubmitWaitlist(email: string, transport: Transport, now: string) returns (result: SubmitResult)
      modifies this, store`waitlist
      ensures fetchCalls == old(fetchCalls) + [Request(email, buttonDisabled, Blank)]
      ensures buttonDisabled == (hasButton || old(buttonDisabled))
      ensures message == Blank && input == old(input) && focused == old(focused)
      ensures transport.Settled? ==> result == RemoteAccepted && store.waitlist == old(store.waitlist)
      ensures transport.Threw? ==>
                var s := SaveLocally(old(store.waitlist), store.writable, email, now);
                result == LocalFallback(s.added) && store.waitlist == s.held
    {
      if hasButton {
        buttonDisabled := true;
      }
      message := Blank;
      fetchCalls := fetchCalls + [Request(email, buttonDisabled, message)];
      if transport.Settled? {
        return RemoteAccepted;
      }
      var added := store.SaveToLocalWaitlist(email, now);
      result := LocalFallback(added);
    }

    /**
     * The submit handler, app.js lines 190-224. A trimmed input that fails the
     * email check shows the invalid message and touches neither `fetch` nor the
     * local store; otherwise the trimmed address is submitted, the message
     * reports the result three ways, the input is cleared exactly on success,
     * and the button ends enabled.
     */
    method OnSubmit(transport: Transport, now: string)
      modifies this, store`waitlist
      ensures var val := Trim(old(input));
              !PassesEmailCheck(val) ==>
                message == InvalidMessage && focused && input == old(input) &&
                fetchCalls == old(fetchCalls) && buttonDisabled == old(buttonDisabled) &&
                store.waitlist == old(store.waitlist)
      ensures var val := Trim(old(input));
              PassesEmailCheck(val) ==>
                fetchCalls == old(fetchCalls) + [Request(val, hasButton || old(buttonDisabled), Blank)] &&
                focused == old(focused) &&
                buttonDisabled == (old(buttonDisabled) && !hasButton)
      ensures var val := Trim(old(input));
              PassesEmailCheck(val) && transport.Settled? ==>
                message == ThanksMessage && input == "" && store.waitlist == old(store.waitlist)
      ensures var val := Trim(old(input));
              PassesEmailCheck(val) && transport.Threw? ==>
                var s := SaveLocally(old(store.waitlist), store.writable, val, now);
                store.waitlist == s.held &&
                message == ResultMessage(LocalFallback(s.added)) &&
                input == (if s.added then "" else old(input))
    {
      message := Blank;
      var val := Trim(input);
      if !PassesEmailCheck(val) {
        message := InvalidMessage;
        focused := true;
        return;
      }
      message := SavingMessage;
      var result := SubmitWaitlist(val, transport, now);
      ShowResult(result);
    }

    /**
     * app.js lines 205-223, once `submitWaitlist` has answered: the message
     * reports the result, the input is cleared exactly on success and the
     * button is enabled again.
     */
    method ShowResult(result: SubmitResult)
      modifies this
      ensures message == ResultMessage(result)
      ensures input == if Succeeded(result) then "" else old(input)
      ensures buttonDisabled == (old(buttonDisabled) && !hasButton)
      ensures focused == old(focused) && fetchCalls == old(fetchCalls)
    {
      message := ResultMessage(result);
      if Succeeded(result) {
        input := "";
      }
      if hasButton {
        buttonDisabled := false;
      }
    }
  }

  /* ---------- Theme toggle ---------- */

  /** The theme a click switches to: `light` exactly from `dark`, `dark` from anything else. */
  function NextTheme(current: Option<string>): (next: string)
    ensures next == "light" <==> current == Some("dark")
    ensures next == "light" || next == "dark"
  {
    if current == Some("dark") then "light" else "dark"
  }

  /** The `aria-pressed` value for a theme: "true" exactly for the dark theme (app.js:26). */
  function PressedFor(theme: string): (pressed: string)
    ensures pressed == "true" <==> theme == "dark"
    ensures pressed == "true" || pressed == "false"
  {
    if theme == "dark" then "true" else "false"
  }

  /** Two clicks return to the theme one started from, once it is `dark` or `light`. */
  lemma TwoClicksRestoreTheme(theme: string)
    requires theme == "dark" || theme == "light"
    ensures NextTheme(Some(NextTheme(Some(theme)))) == theme
  {
  }

  /** `data-theme` on the body, `aria-pressed` on the toggle button, and the store the choice is saved in. */
  class ThemeToggle {
    var dataTheme: Option<string>
    var ariaPressed: Option<string>
    const storage: LocalStorage

    /**
     * The page as loaded, then app.js lines 20-21: a saved theme that is
     * neither absent nor empty replaces the markup's `data-theme`.
     */
    constructor (storage: LocalStorage, dataTheme: Option<string>, ariaPressed: Option<string>)
      ensures this.storage == storage && this.ariaPressed == ariaPressed
      ensures this.dataTheme == if storage.theme.Some? && storage.theme.value != "" then storage.theme else dataTheme
    {
      this.storage := storage;
      this.ariaPressed := ariaPressed;
      if storage.theme.Some? && storage.theme.value != "" {
        this.dataTheme := storage.theme;
      } else {
        this.dataTheme := dataTheme;
      }
    }

    /**
     * The click handler, app.js lines 22-27. The body switches theme; the
     * same value is saved under `dringo-theme` and `aria-pressed` says whether
     * it is dark. A `setItem` that throws ends the handler before
     * `aria-pressed` is set.
     */
    method Click()
      modifies this, storage`theme
      ensures dataTheme == Some(NextTheme(old(dataTheme)))
      ensures storage.writable ==> storage.theme == dataTheme && ariaPressed == Some(PressedFor(dataTheme.value))
      ensures !storage.writable ==> storage.theme == old(storage.theme) && ariaPressed == old(ariaPressed)
    {
      var next := NextTheme(dataTheme);
      dataTheme := Some(next);
      var saved := storage.SetTheme(next);
      if !saved {
        return;
      }
      ariaPressed := Some(PressedFor(next));
    }
  }

  /* ---------- FAQ accordion ---------- */

  /** One `.accordion__button` and, when there is one, the panel that follows it. */
  class AccordionItem {
    var ariaExpanded: Option<string>
    const hasPanel: bool
    var panelHidden: bool

    constructor (ariaExpanded: Option<string>, hasPanel: bool, panelHidden: bool)
      ensures this.ariaExpanded == ariaExpanded && this.hasPanel == hasPanel && this.panelHidden == panelHidden
    {
      this.ariaExpanded := ariaExpanded;
      this.hasPanel := hasPanel;
      this.panelHidden := panelHidden;
    }

    /** The button's `aria-expanded` attribute says the item is open (app.js:123). */
    predicate Expanded()
      reads this
    {
      ariaExpanded == Some("true")
    }

    /** The panel is shown exactly when the button says it is expanded. */
    predicate Consistent()
      reads this
    {
      hasPanel ==> panelHidden == !Expanded()
    }

    /**
     * The click handler, app.js lines 121-131: `aria-expanded` flips, and a
     * panel, when present, is hidden exactly when it was expanded before.
     */
    method Click()
      modifies this
      ensures ariaExpanded == Some(if old(Expanded()) then "false" else "true")
      ensures Expanded() == !old(Expanded())
      ensures panelHidden == if hasPanel then old(Expanded()) else old(panelHidden)
      ensures Consistent()
    {
      var expanded := ariaExpanded == Some("true");
      ariaExpanded := Some(if !expanded then "true" else "false");
      if !hasPanel {
        return;
      }
      if expanded {
        panelHidden := true;
      } else {
        panelHidden := false;
      }
    }
  }
}
