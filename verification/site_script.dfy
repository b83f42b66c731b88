/**
 * The project web page's script: the image carousel, tabs, the contact form's checks
 * with its email pattern, the typing effect and the music toggle. The DOM is reduced
 * to the flags and texts the handlers set.
 */
module SiteScript {
  import opened Common

  // ---------------------------------------------------------------------------
  // Carousel

  /**
   * The next-button handler: `(i + 1) % n`. The operands are never negative here, so
   * JavaScript's truncating `%` agrees with Dafny's.
   */
  function Next(i: int, n: int): (r: int)
    requires 0 <= i < n
    ensures 0 <= r < n
    ensures r == if i + 1 == n then 0 else i + 1
  {
    (i + 1) % n
  }

  /** The previous-button handler: `(i - 1 + n) % n`. */
  function Prev(i: int, n: int): (r: int)
    requires 0 <= i < n
    ensures 0 <= r < n
    ensures r == if i == 0 then n - 1 else i - 1
  {
    (i - 1 + n) % n
  }

  /** Previous undoes next and next undoes previous. */
  lemma NextPrevInverse(i: int, n: int)
    requires 0 <= i < n
    ensures Prev(Next(i, n), n) == i && Next(Prev(i, n), n) == i
  {
  }

  /** `k` presses of next from the first slide. */
  function NextTimes(k: nat, n: int): (r: int)
    requires n > 0
    ensures 0 <= r < n
  {
    if k == 0 then 0 else Next(NextTimes(k - 1, n), n)
  }

  /** After `k` next presses the carousel shows slide `k mod n`. */
  lemma {:induction false} NextTimesIsMod(k: nat, n: int)
    requires n > 0
    ensures NextTimes(k, n) == k % n
  {
    if k > 0 {
      NextTimesIsMod(k - 1, n);
      var q, r := (k - 1) / n, (k - 1) % n;
      assert k - 1 == q * n + r;
      if r + 1 == n {
        assert k == (q + 1) * n + 0;
        MulDivMod(q + 1, 0, n);
      } else {
        assert k == q * n + (r + 1);
        MulDivMod(q, r + 1, n);
      }
    }
  }

  /** `showSlide(k)`: the `active` flag of each of the `n` slides. */
  function ShowSlide(k: int, n: nat): (active: seq<bool>)
    ensures |active| == n
    ensures forall i :: 0 <= i < n ==> (active[i] <==> i == k)
  {
    seq(n, i => i == k)
  }

  /** For a slide index in range, exactly one slide is active. */
  lemma ExactlyOneSlide(k: int, n: nat)
    requires 0 <= k < n
    ensures var active := ShowSlide(k, n);
      (set i | 0 <= i < n && active[i]) == {k}
  {
  }

  // ---------------------------------------------------------------------------
  // Tabs

  /** The `active` flags of the tab buttons and the tab panels. */
  datatype Tabs = Tabs(buttons: seq<bool>, contents: seq<bool>)

  /**
   * A click on button `b` whose target panel is `target` (None when no element has the
   * button's target id): every button and panel is deactivated, then the clicked button
   * and the target panel are activated. A missing target throws after the button is set.
   */
  function ClickTab(t: Tabs, b: nat, target: Option<nat>): (r: Tabs)
    requires b < |t.buttons| && (target.Some? ==> target.value < |t.contents|)
    ensures |r.buttons| == |t.buttons| && |r.contents| == |t.contents|
    ensures forall i :: 0 <= i < |r.buttons| ==> (r.buttons[i] <==> i == b)
    ensures forall i :: 0 <= i < |r.contents| ==> (r.contents[i] <==> target == Some(i))
  {
    var buttons := seq(|t.buttons|, i => i == b);
    var contents := seq(|t.contents|, i => false);
    match target
    case None => Tabs(buttons, contents)
    case Some(c) => Tabs(buttons, contents[c := true])
  }

  /** Whatever was active before, a click leaves exactly its button and its panel active. */
  lemma TabClickIsExclusive(t: Tabs, b: nat, c: nat)
    requires b < |t.buttons| && c < |t.contents|
    ensures var r := ClickTab(t, b, Some(c));
      (set i | 0 <= i < |r.buttons| && r.buttons[i]) == {b} &&
      (set i | 0 <= i < |r.contents| && r.contents[i]) == {c}
  {
  }

  // ---------------------------------------------------------------------------
  // Email pattern and contact form

  /** The characters of JavaScript's `\s`: white space and line terminators. */
  predicate IsSpace(c: char) {
    ('\t' <= c <= '\r') || c == ' ' || c == '\U{A0}' || c == '\U{1680}' ||
    ('\U{2000}' <= c <= '\U{200A}') || c == '\U{2028}' || c == '\U{2029}' || c == '\U{202F}' ||
    c == '\U{205F}' || c == '\U{3000}' || c == '\U{FEFF}'
  }

  /** A character of the class `[^\s@]`. */
  predicate Plain(c: char) {
    !IsSpace(c) && c != '@'
  }

  /**
   * What `/^[^\s@]+@[^\s@]+\.[^\s@]+$/` matches: the text splits as `a@b.c` with `a`,
   * `b`, `c` non-empty and made of characters other than white space and '@'. The dot
   * may be any dot after the first character past the '@' and before the last character.
   */
  ghost predicate EmailPattern(s: string) {
    exists at, dot :: 0 < at && at + 1 < dot < |s| - 1 && s[at] == '@' && s[dot] == '.' &&
      forall i :: 0 <= i < |s| && i != at ==> Plain(s[i])
  }

  /**
   * `validateEmail` as a single left-to-right scan: no white space, exactly one '@'
   * with text before it, and after it a '.' with text on both sides.
   */
  method ValidateEmail(s: string) returns (ok: bool)
    ensures ok <==> EmailPattern(s)
  {
    var at := -1;
    var found := false;
    var i := 0;
    while i < |s|
      invariant 0 <= i <= |s| && -1 <= at < i
      invariant forall k :: 0 <= k < i ==> !IsSpace(s[k])
      invariant at >= 0 ==> s[at] == '@'
      invariant forall k :: 0 <= k < i && k != at ==> s[k] != '@'
      invariant found <==> at >= 0 && exists d :: at + 1 < d < i && d < |s| - 1 && s[d] == '.'
    {
      var c := s[i];
      if IsSpace(c) {
        NotPatternAt(s, i);
        return false;
      }
      if c == '@' {
        if at >= 0 {
          NotPatternTwoAts(s, at, i);
          return false;
        }
        at := i;
      } else if c == '.' && at >= 0 && at + 1 < i < |s| - 1 {
        found := true;
      }
      i := i + 1;
    }
    ok := at > 0 && found;
    if ok {
      var d :| at + 1 < d < i && d < |s| - 1 && s[d] == '.';
      assert forall k :: 0 <= k < |s| && k != at ==> Plain(s[k]);
    }
    if EmailPattern(s) {
      var a, d :| 0 < a && a + 1 < d < |s| - 1 && s[a] == '@' && s[d] == '.' &&
        forall k :: 0 <= k < |s| && k != a ==> Plain(s[k]);
      assert a == at;
      assert at + 1 < d < i && d < |s| - 1 && s[d] == '.';
    }
  }

  /** A white-space character anywhere rules the pattern out. */
  lemma NotPatternAt(s: string, i: nat)
    requires i < |s| && IsSpace(s[i])
    ensures !EmailPattern(s)
  {
    forall at | 0 <= at < |s| && s[at] == '@'
      ensures exists k :: 0 <= k < |s| && k != at && !Plain(s[k])
    {
      assert i != at && !Plain(s[i]);
    }
  }

  /** Two '@' characters rule the pattern out. */
  lemma NotPatternTwoAts(s: string, i: nat, j: nat)
    requires i < j < |s| && s[i] == '@' && s[j] == '@'
    ensures !EmailPattern(s)
  {
    forall at | 0 <= at < |s| && s[at] == '@'
      ensures exists k :: 0 <= k < |s| && k != at && !Plain(s[k])
    {
      if at == i {
        assert j != at && !Plain(s[j]);
      } else {
        assert i != at && !Plain(s[i]);
      }
    }
  }

  /** `String.prototype.trim`: the text without leading and trailing `\s` characters. */
  function Trim(s: string): (r: string)
    ensures |r| == 0 || (!IsSpace(r[0]) && !IsSpace(r[|r| - 1]))
    decreases |s|
  {
    if |s| > 0 && IsSpace(s[0]) then Trim(s[1..])
    else if |s| > 0 && IsSpace(s[|s| - 1]) then Trim(s[..|s| - 1])
    else s
  }

  datatype FormMessage = FillAllFields | InvalidEmail | Thanks
  {
    function Text(): string {
      match this
      case FillAllFields => "Please fill in all fields."
      case InvalidEmail => "Please enter a valid email."
      case Thanks => "Thanks for your message! " + "We will get back to you soon."
    }
  }

  /** The form's three fields. */
  datatype Form = Form(name: string, email: string, message: string)

  /**
   * The submit handler: trim the fields; any empty one is reported before the email is
   * looked at; then the email pattern; on success the form is reset.
   */
  method Submit(f: Form) returns (msg: FormMessage, after: Form)
    ensures msg == FillAllFields <==> Trim(f.name) == "" || Trim(f.email) == "" || Trim(f.message) == ""
    ensures msg == InvalidEmail <==>
      Trim(f.name) != "" && Trim(f.email) != "" && Trim(f.message) != "" && !EmailPattern(Trim(f.email))
    ensures msg == Thanks <==>
      Trim(f.name) != "" && Trim(f.message) != "" && EmailPattern(Trim(f.email))
    ensures after == if msg == Thanks then Form("", "", "") else f
  {
    var name, email, message := Trim(f.name), Trim(f.email), Trim(f.message);
    if name == "" || email == "" || message == "" {
      return FillAllFields, f;
    }
    var ok := ValidateEmail(email);
    if !ok {
      return InvalidEmail, f;
    }
    return Thanks, Form("", "", "");
  }

  // ---------------------------------------------------------------------------
  // Typing effect and music toggle

  /** The typing element's text and the position of the next character. */
  datatype Typing = Typing(shown: string, next: nat)

  /** One `typeOnce` call: append the next character while any is left. */
  function TypeOnce(text: string, t: Typing): (r: Typing)
    ensures t.next < |text| ==> r == Typing(t.shown + [text[t.next]], t.next + 1)
    ensures t.next >= |text| ==> r == t
  {
    if t.next < |text| then Typing(t.shown + [text[t.next]], t.next + 1) else t
  }

  function TypeSteps(text: string, k: nat): Typing {
    if k == 0 then Typing("", 0) else TypeOnce(text, TypeSteps(text, k - 1))
  }

  /** After `k` steps the element shows the first `min(k, |text|)` characters. */
  lemma {:induction false} TypeStepsShowsPrefix(text: string, k: nat)
    ensures var m := if k < |text| then k else |text|;
      TypeSteps(text, k) == Typing(text[..m], m)
  {
    if k > 0 {
      TypeStepsShowsPrefix(text, k - 1);
      if k - 1 < |text| {
        assert text[..k] == text[..k - 1] + [text[k - 1]];
      }
    }
  }

  /** The music button's label: muted or playing speaker. */
  const MUTED: char := '\U{1F507}'
  const PLAYING: char := '\U{1F50A}'

  /** A click: pause and show the muted label when playing, else play; the flag flips. */
  function ToggleMusic(isPlaying: bool): (r: (bool, char))
    ensures r.0 == !isPlaying
    ensures r.1 == if r.0 then PLAYING else MUTED
  {
    if isPlaying then (false, MUTED) else (true, PLAYING)
  }

  /** The flag after `k` clicks, starting from playing. */
  function ToggleTimes(k: nat): bool {
    if k == 0 then true else ToggleMusic(ToggleTimes(k - 1)).0
  }

  /** Music plays exactly after an even number of clicks. */
  lemma {:induction false} ToggleParity(k: nat)
    ensures ToggleTimes(k) <==> k % 2 == 0
  {
    if k > 0 {
      ToggleParity(k - 1);
    }
  }
}
