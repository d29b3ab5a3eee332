/** The client page: today's date as `YYYY-MM-DD`, and the `Home` component's
    state with its two operations, `FetchWeights` (load the list) and
    `HandleSubmit` (check the form, save up to two entries one at a time,
    then either surface the failure or clear the inputs and reload). The
    network is an oracle: the reply to each request is a parameter. */
module HomePage {
  import opened Entries

  // ---------------------------------------------------------------------------
  // getToday: decimal rendering, two-character zero padding, and the date string

  predicate IsDigit(c: char)
  {
    '0' <= c <= '9'
  }

  predicate AllDigits(s: string)
  {
    forall i :: 0 <= i < |s| ==> IsDigit(s[i])
  }

  /** `n.toString()` for a non-negative integer: no leading zero except for 0 itself. */
  function NatToString(n: nat): (s: string)
    ensures |s| >= 1 && AllDigits(s)
    ensures n >= 10 ==> s[0] != '0'
  {
    if n < 10 then ["0123456789"[n]] else NatToString(n / 10) + ["0123456789"[n % 10]]
  }

  /** The decimal value of a digit string, the inverse of `NatToString`. */
  function ParseDigits(s: string): nat
    requires AllDigits(s)
  {
    if s == [] then 0 else ParseDigits(s[..|s| - 1]) * 10 + (s[|s| - 1] as int - '0' as int)
  }

  lemma {:induction false} ParseNatToString(n: nat)
    ensures ParseDigits(NatToString(n)) == n
  {
    if n >= 10 {
      ParseNatToString(n / 10);
      var s := NatToString(n);
      assert s[..|s| - 1] == NatToString(n / 10);
    }
  }

  /** `n.toString()` for any integer: a minus sign, then the digits. Reading
      the digits back gives the magnitude, the sign shows exactly when `n` is
      negative, and there is no leading zero unless the magnitude is 0. */
  function IntToString(n: int): (s: string)
    ensures n < 0 <==> (|s| > 0 && s[0] == '-')
    ensures n >= 0 ==> AllDigits(s) && ParseDigits(s) == n
    ensures n < 0 ==> AllDigits(s[1..]) && ParseDigits(s[1..]) == -n
    ensures n >= 10 ==> s[0] != '0'
    ensures n <= -10 ==> s[1] != '0'
  {
    ParseNatToString(if n < 0 then -n else n);
    if n < 0 then "-" + NatToString(-n) else NatToString(n)
  }

  /** The width of the decimal rendering, for the ranges a calendar date uses. */
  lemma {:induction false} NatToStringWidth(n: nat)
    ensures n < 10 ==> |NatToString(n)| == 1
    ensures 10 <= n < 100 ==> |NatToString(n)| == 2
    ensures 100 <= n < 1000 ==> |NatToString(n)| == 3
    ensures 1000 <= n < 10000 ==> |NatToString(n)| == 4
  {
    if n >= 10 {
      NatToStringWidth(n / 10);
    }
  }

  /** `s.padStart(2, '0')`: zeros on the left up to two characters; longer strings unchanged. */
  function PadStart2(s: string): (r: string)
    ensures |s| >= 2 ==> r == s
    ensures |s| < 2 ==> |r| == 2 && r[2 - |s|..] == s && forall i :: 0 <= i < 2 - |s| ==> r[i] == '0'
    decreases 2 - |s|
  {
    if |s| >= 2 then s else PadStart2("0" + s)
  }

  /** `getToday()` from the local calendar fields: `getFullYear()`, the
      zero-based `getMonth()` and `getDate()`. For any year, the last six
      characters are `-MM-DD`, reading back as the month number and the day,
      and what precedes them is the year's rendering. */
  function GetToday(year: int, monthIndex: int, day: int): (r: string)
    ensures 0 <= monthIndex <= 11 && 1 <= day <= 31 ==>
      var n := |r|;
      n >= 6 && r[..n - 6] == IntToString(year) && r[n - 6] == '-' && r[n - 3] == '-'
      && AllDigits(r[n - 5..n - 3]) && ParseDigits(r[n - 5..n - 3]) == monthIndex + 1
      && AllDigits(r[n - 2..]) && ParseDigits(r[n - 2..]) == day
  {
    var y, m, d := IntToString(year), PadStart2(IntToString(monthIndex + 1)), PadStart2(IntToString(day));
    CalendarFields(monthIndex, day);
    DateShape(y, m, d);
    y + "-" + m + "-" + d
  }

  /** The padded month and day of a calendar date are two digits each. */
  lemma CalendarFields(monthIndex: int, day: int)
    ensures 0 <= monthIndex <= 11 && 1 <= day <= 31 ==>
      var m, d := PadStart2(IntToString(monthIndex + 1)), PadStart2(IntToString(day));
      |m| == 2 && |d| == 2 && AllDigits(m) && AllDigits(d)
      && ParseDigits(m) == monthIndex + 1 && ParseDigits(d) == day
  {
    if 0 <= monthIndex <= 11 && 1 <= day <= 31 {
      TwoDigits(monthIndex + 1);
      TwoDigits(day);
    }
  }

  /** Where the fields of `y-m-d` sit when `m` and `d` have two characters. */
  lemma DateShape(y: string, m: string, d: string)
    ensures |m| == 2 && |d| == 2 ==>
      var r := y + "-" + m + "-" + d;
      var n := |r|;
      n == |y| + 6 && r[..n - 6] == y && r[n - 6] == '-' && r[n - 5..n - 3] == m && r[n - 3] == '-' && r[n - 2..] == d
  {
    if |m| == 2 && |d| == 2 {
      var r := y + "-" + m + "-" + d;
      var n := |r|;
      assert r == (y + "-" + m) + ("-" + d);
      assert r[n - 3..] == "-" + d;
      assert r[..n - 3] == y + "-" + m;
    }
  }

  /** A one- or two-digit number, padded, reads back as itself. */
  lemma TwoDigits(n: nat)
    requires n < 100
    ensures |PadStart2(NatToString(n))| == 2 && AllDigits(PadStart2(NatToString(n)))
    ensures ParseDigits(PadStart2(NatToString(n))) == n
  {
    NatToStringWidth(n);
    ParseNatToString(n);
    var t := NatToString(n);
    var p := PadStart2(t);
    if n < 10 {
      assert p == ['0'] + t;
      assert p[..1] == ['0'];
    }
  }

  /** For a four-digit year, a month index 0..11 and a day 1..31, `getToday`
      yields `YYYY-MM-DD`: four year digits, `-`, two month digits reading
      one more than the index, `-`, two day digits. */
  lemma GetTodayIsIso(year: int, monthIndex: int, day: int) returns (y: string, m: string, d: string)
    requires 1000 <= year <= 9999 && 0 <= monthIndex <= 11 && 1 <= day <= 31
    ensures GetToday(year, monthIndex, day) == y + "-" + m + "-" + d
    ensures |y| == 4 && |m| == 2 && |d| == 2
    ensures AllDigits(y) && AllDigits(m) && AllDigits(d)
    ensures ParseDigits(y) == year && ParseDigits(m) == monthIndex + 1 && ParseDigits(d) == day
  {
    y, m, d := NatToString(year), PadStart2(NatToString(monthIndex + 1)), PadStart2(NatToString(day));
    NatToStringWidth(year);
    ParseNatToString(year);
    TwoDigits(monthIndex + 1);
    TwoDigits(day);
  }

  /** Lexicographic order on two strings with equal-length prefixes is
      decided by the prefixes unless they are equal. */
  lemma {:induction false} LexLeAppend(a: string, b: string, x: string, y: string)
    requires |a| == |b|
    ensures LexLe(a + x, b + y) <==> (a == b && LexLe(x, y)) || (a != b && LexLe(a, b))
  {
    if a != [] {
      assert (a + x)[0] == a[0] && (b + y)[0] == b[0];
      assert (a + x)[1..] == a[1..] + x && (b + y)[1..] == b[1..] + y;
      LexLeAppend(a[1..], b[1..], x, y);
      assert a == [a[0]] + a[1..] && b == [b[0]] + b[1..];
    } else {
      assert a + x == x && b + y == y;
    }
  }

  /** On digit strings of one width, lexicographic order is numeric order. */
  lemma {:induction false} DigitsOrder(a: string, b: string)
    requires |a| == |b| && AllDigits(a) && AllDigits(b)
    ensures LexLe(a, b) <==> ParseDigits(a) <= ParseDigits(b)
    ensures a == b <==> ParseDigits(a) == ParseDigits(b)
  {
    if a != [] {
      var n := |a| - 1;
      var a', b' := a[..n], b[..n];
      assert a == a' + [a[n]] && b == b' + [b[n]];
      DigitsOrder(a', b');
      LexLeAppend(a', b', [a[n]], [b[n]]);
      assert LexLe([a[n]], [b[n]]) <==> a[n] <= b[n] by {
        assert [a[n]][1..] == [] && [b[n]][1..] == [];
      }
    }
  }

  /** Concatenations with equal-length prefixes are equal exactly when both parts are. */
  lemma AppendEq(a: string, b: string, x: string, y: string)
    requires |a| == |b|
    ensures a + x == b + y <==> a == b && x == y
  {
    if a + x == b + y {
      assert a == (a + x)[..|a|] && b == (b + y)[..|b|];
      assert x == (a + x)[|a|..] && y == (b + y)[|b|..];
    }
  }

  /** A prefix followed by `-`: equal and ordered exactly as the prefix. */
  lemma DashSuffix(a: string, b: string)
    requires |a| == |b|
    ensures a + "-" == b + "-" <==> a == b
    ensures a != b ==> (LexLe(a + "-", b + "-") <==> LexLe(a, b))
  {
    AppendEq(a, b, "-", "-");
    LexLeAppend(a, b, "-", "-");
  }

  /** `Y-M-D` strings with fields of fixed widths compare field by field. */
  lemma FieldwiseOrder(y1: string, m1: string, d1: string, y2: string, m2: string, d2: string)
    requires |y1| == |y2| && |m1| == |m2|
    ensures LexLe(y1 + "-" + m1 + "-" + d1, y2 + "-" + m2 + "-" + d2) <==>
      ((y1 != y2 && LexLe(y1, y2))
        || (y1 == y2 && ((m1 != m2 && LexLe(m1, m2)) || (m1 == m2 && LexLe(d1, d2)))))
  {
    var a1, a2 := y1 + "-", y2 + "-";
    DashSuffix(y1, y2);
    var b1, b2 := a1 + m1, a2 + m2;
    AppendEq(a1, a2, m1, m2);
    LexLeAppend(a1, a2, m1, m2);
    var c1, c2 := b1 + "-", b2 + "-";
    DashSuffix(b1, b2);
    LexLeAppend(c1, c2, d1, d2);
  }

  /** Dates from `getToday` sort lexicographically in calendar order, so the
      ascending date order of the listing is chronological for them. */
  lemma IsoDatesSortChronologically(y1: int, m1: int, d1: int, y2: int, m2: int, d2: int)
    requires 1000 <= y1 <= 9999 && 0 <= m1 <= 11 && 1 <= d1 <= 31
    requires 1000 <= y2 <= 9999 && 0 <= m2 <= 11 && 1 <= d2 <= 31
    ensures LexLe(GetToday(y1, m1, d1), GetToday(y2, m2, d2))
      <==> y1 < y2 || (y1 == y2 && (m1 < m2 || (m1 == m2 && d1 <= d2)))
  {
    var yy1, mm1, dd1 := GetTodayIsIso(y1, m1, d1);
    var yy2, mm2, dd2 := GetTodayIsIso(y2, m2, d2);
    DigitsOrder(yy1, yy2);
    DigitsOrder(mm1, mm2);
    DigitsOrder(dd1, dd2);
    FieldwiseOrder(yy1, mm1, dd1, yy2, mm2, dd2);
  }

  // ---------------------------------------------------------------------------
  // The form submission

  const SecretRequired := "Secret Key is required to save data."
  const WeightRequired := "Enter a weight for at least one person."
  const SaveFailed := "Failed to save entry."
  const SaveUnknown := "An unknown error occurred while saving."
  const FetchFailed := "Failed to fetch weights"
  const FetchUnknown := "An unknown error occurred"

  /** One request body built by the form. `kgInput` is the text of the weight
      field; the number sent is `parseFloat` of it. */
  datatype PendingEntry = PendingEntry(who: string, date: string, kgInput: string)

  /** The entries the form saves: one per non-empty weight field, Aryman
      before Amal, all on the form's date. */
  function EntriesFor(arymanKg: string, amalKg: string, date: string): (es: seq<PendingEntry>)
    ensures |es| == (if arymanKg != "" then 1 else 0) + (if amalKg != "" then 1 else 0)
    ensures arymanKg != "" || amalKg != "" ==> 1 <= |es| <= 2
    ensures arymanKg != "" ==> es[0] == PendingEntry(Aryman, date, arymanKg)
    ensures amalKg != "" ==> es[|es| - 1] == PendingEntry(Amal, date, amalKg)
  {
    (if arymanKg != "" then [PendingEntry(Aryman, date, arymanKg)] else [])
    + (if amalKg != "" then [PendingEntry(Amal, date, amalKg)] else [])
  }

  /** Every entry built carries the form's date and one person's own field text. */
  lemma EntriesShareDate(arymanKg: string, amalKg: string, date: string)
    ensures forall e :: e in EntriesFor(arymanKg, amalKg, date) ==> e.date == date
    ensures forall e :: e in EntriesFor(arymanKg, amalKg, date) ==>
      (e.who == Aryman && e.kgInput == arymanKg) || (e.who == Amal && e.kgInput == amalKg)
  {
  }

  /** What one save request comes back with: a 2xx, a non-2xx whose JSON body
      has the given `error` field (`None` when it has none), or a thrown
      value (an `Error` with its message, or `None` for anything else). */
  datatype SaveReply = Saved | Refused(errorField: Option<string>) | Threw(message: Option<string>)

  /** The message a failed save leaves in `error`. */
  function SaveError(reply: SaveReply): string
    requires !reply.Saved?
  {
    match reply
    case Refused(field) => if field.Some? && field.value != "" then field.value else SaveFailed
    case Threw(message) => if message.Some? then message.value else SaveUnknown
  }

  datatype SaveOutcome = AllSaved | FailedAt(index: nat, message: string)

  /** The outcome of saving `entries[i..]` in order and stopping at the first
      failure: a failure names a request whose reply is not a success, and
      the message that reply shows. */
  function SavesFrom(entries: seq<PendingEntry>, respond: (nat, PendingEntry) -> SaveReply, i: nat): (o: SaveOutcome)
    requires i <= |entries|
    ensures o.FailedAt? ==> i <= o.index < |entries| && !respond(o.index, entries[o.index]).Saved?
    ensures o.FailedAt? ==> o.message == SaveError(respond(o.index, entries[o.index]))
    decreases |entries| - i
  {
    if i == |entries| then AllSaved
    else if respond(i, entries[i]).Saved? then SavesFrom(entries, respond, i + 1)
    else FailedAt(i, SaveError(respond(i, entries[i])))
  }

  /** Either every reply is a success, or the failure named is the first one. */
  lemma {:induction false} SavesFromFirstFailure(entries: seq<PendingEntry>, respond: (nat, PendingEntry) -> SaveReply, i: nat)
    requires i <= |entries|
    ensures SavesFrom(entries, respond, i).AllSaved? <==> forall j :: i <= j < |entries| ==> respond(j, entries[j]).Saved?
    ensures SavesFrom(entries, respond, i).FailedAt? ==>
      forall j :: i <= j < SavesFrom(entries, respond, i).index ==> respond(j, entries[j]).Saved?
    decreases |entries| - i
  {
    if i < |entries| && respond(i, entries[i]).Saved? {
      SavesFromFirstFailure(entries, respond, i + 1);
    }
  }

  /** How many requests a run with this outcome sends. */
  function SentCount(o: SaveOutcome, n: nat): nat
  {
    match o
    case AllSaved => n
    case FailedAt(k, _) => k + 1
  }

  /** A failure is the first one: every earlier reply was a success. */
  lemma FirstFailureUnique(entries: seq<PendingEntry>, respond: (nat, PendingEntry) -> SaveReply, k: nat)
    requires k < |entries| && !respond(k, entries[k]).Saved?
    requires forall j :: 0 <= j < k ==> respond(j, entries[j]).Saved?
    ensures SavesFrom(entries, respond, 0) == FailedAt(k, SaveError(respond(k, entries[k])))
  {
    SavesFromFirstFailure(entries, respond, 0);
    var o := SavesFrom(entries, respond, 0);
    assert !o.AllSaved?;
    assert o.index <= k;
  }

  /** What a failed list fetch leaves in `error`. */
  datatype FetchOutcome = Fetched(rows: seq<Entry>) | NotOk | FetchThrew(message: Option<string>)

  function FetchError(o: FetchOutcome): string
    requires !o.Fetched?
  {
    match o
    case NotOk => FetchFailed
    case FetchThrew(message) => if message.Some? then message.value else FetchUnknown
  }

  /** The save loop of `handleSubmit`: post each entry in order and stop at
      the first failure (`break`), leaving earlier saves in place. `sent`
      lists the requests made; `failure` is the message of the failing one,
      `None` when every save succeeded (the source's `success` flag). */
  method SaveInOrder(entries: seq<PendingEntry>, respond: (nat, PendingEntry) -> SaveReply)
    returns (sent: seq<PendingEntry>, failure: Option<string>)
    ensures var outcome := SavesFrom(entries, respond, 0);
      && sent == entries[..SentCount(outcome, |entries|)]
      && failure == (if outcome.FailedAt? then Some(outcome.message) else None)
  {
    sent := [];
    failure := None;
    var i := 0;
    while i < |entries|
      invariant 0 <= i <= |entries|
      invariant sent == entries[..i]
      invariant forall j :: 0 <= j < i ==> respond(j, entries[j]).Saved?
      invariant failure == None
    {
      var reply := respond(i, entries[i]);
      sent := sent + [entries[i]];
      if !reply.Saved? {
        failure := Some(SaveError(reply));
        FirstFailureUnique(entries, respond, i);
        break;
      }
      i := i + 1;
    }
  }

  /** The `Home` component's state. */
  class Home {
    var weights: seq<Entry>
    var secret: string
    var arymanKg: string
    var amalKg: string
    var date: string
    var isLoading: bool
    var error: Option<string>
    var isSaving: bool

    /** The initial state; the date field starts at today's date. */
    constructor (year: int, monthIndex: int, day: int)
      ensures weights == [] && secret == "" && arymanKg == "" && amalKg == ""
      ensures date == GetToday(year, monthIndex, day)
      ensures isLoading && error == None && !isSaving
    {
      weights := [];
      secret := "";
      arymanKg := "";
      amalKg := "";
      date := GetToday(year, monthIndex, day);
      isLoading := true;
      error := None;
      isSaving := false;
    }

    /** `fetchWeights`: on success the list replaces `weights`; on failure
        `weights` stays and `error` shows why; loading ends either way. */
    method FetchWeights(outcome: FetchOutcome)
      modifies this`weights, this`error, this`isLoading
      ensures !isLoading
      ensures outcome.Fetched? ==> weights == outcome.rows && error == old(error)
      ensures !outcome.Fetched? ==> weights == old(weights) && error == Some(FetchError(outcome))
    {
      if outcome.Fetched? {
        weights := outcome.rows;
      } else {
        error := Some(FetchError(outcome));
      }
      isLoading := false;
    }

    /** `handleSubmit` as one sequential run. `respond(i, e)` is the reply to
        the `i`-th save request, `refetch` the outcome of the reload after a
        full success; `sent` lists the save requests in the order sent. */
    method HandleSubmit(respond: (nat, PendingEntry) -> SaveReply, refetch: FetchOutcome)
      returns (sent: seq<PendingEntry>)
      modifies this
      ensures secret == old(secret) && date == old(date)
      // The secret check comes first and sends nothing.
      ensures old(secret) == "" ==>
        && sent == [] && error == Some(SecretRequired)
        && arymanKg == old(arymanKg) && amalKg == old(amalKg)
        && weights == old(weights) && isLoading == old(isLoading) && isSaving == old(isSaving)
      // Then the both-weights-empty check, which sends nothing either.
      ensures old(secret) != "" && old(arymanKg) == "" && old(amalKg) == "" ==>
        && sent == [] && error == Some(WeightRequired)
        && arymanKg == old(arymanKg) && amalKg == old(amalKg)
        && weights == old(weights) && isLoading == old(isLoading) && isSaving == old(isSaving)
      // Otherwise the entries are saved in order up to the first failure.
      ensures old(secret) != "" && (old(arymanKg) != "" || old(amalKg) != "") ==>
        var entries := EntriesFor(old(arymanKg), old(amalKg), old(date));
        var outcome := SavesFrom(entries, respond, 0);
        && sent == entries[..SentCount(outcome, |entries|)]
        && !isSaving
        && (outcome.FailedAt? ==>
              && error == Some(outcome.message)
              && arymanKg == old(arymanKg) && amalKg == old(amalKg)
              && weights == old(weights) && isLoading == old(isLoading))
        && (outcome.AllSaved? ==>
              && arymanKg == "" && amalKg == "" && !isLoading
              && weights == (if refetch.Fetched? then refetch.rows else old(weights))
              && error == (if refetch.Fetched? then None else Some(FetchError(refetch))))
    {
      sent := [];
      if secret == "" {
        error := Some(SecretRequired);
        return;
      }
      if arymanKg == "" && amalKg == "" {
        error := Some(WeightRequired);
        return;
      }

      isSaving := true;
      error := None;

      var entriesToSave: seq<PendingEntry> := [];
      if arymanKg != "" {
        entriesToSave := entriesToSave + [PendingEntry(Aryman, date, arymanKg)];
      }
      if amalKg != "" {
        entriesToSave := entriesToSave + [PendingEntry(Amal, date, amalKg)];
      }
      assert entriesToSave == EntriesFor(arymanKg, amalKg, date);

      var failure;
      sent, failure := SaveInOrder(entriesToSave, respond);
      ghost var outcome := SavesFrom(entriesToSave, respond, 0);
      assert failure.None? <==> outcome.AllSaved?;
      if failure.None? {
        arymanKg := "";
        amalKg := "";
        FetchWeights(refetch);
      } else {
        error := failure;
      }
      isSaving := false;
    }
  }
}
