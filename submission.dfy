/** The checks and the record construction of the form's submit handler
    (app.js:241-274): what the user typed becomes a `Draft`, and a draft
    either becomes a transaction or is refused with the first failed check. */
module Submission {
  import opened Wrappers
  import opened Records

  /** `MAX_NOTE_LENGTH` (app.js:3). */
  const MaxNoteLength: nat := 50

  /** The characters `String.prototype.trim` removes: white space (tab,
      vertical tab, form feed, space, no-break space, the byte order mark
      and the other space separators) and line terminators. */
  predicate IsTrimmable(c: char)
  {
    var n := c as int;
    n == 0x09 || n == 0x0A || n == 0x0B || n == 0x0C || n == 0x0D || n == 0x20
    || n == 0xA0 || n == 0x1680 || (0x2000 <= n <= 0x200A) || n == 0x2028
    || n == 0x2029 || n == 0x202F || n == 0x205F || n == 0x3000 || n == 0xFEFF
  }

  /** Every character of `s` from index `lo` up to `hi` is trimmable. */
  predicate TrimmableIn(s: string, lo: nat, hi: nat)
    requires lo <= hi <= |s|
  {
    forall i :: lo <= i < hi ==> IsTrimmable(s[i])
  }

  /** Where the run of trimmable characters starting at `i` ends. */
  function LeadingEnd(s: string, i: nat): (e: nat)
    requires i <= |s|
    ensures i <= e <= |s|
    ensures TrimmableIn(s, i, e)
    ensures e < |s| ==> !IsTrimmable(s[e])
    decreases |s| - i
  {
    if i < |s| && IsTrimmable(s[i]) then LeadingEnd(s, i + 1) else i
  }

  /** Where the run of trimmable characters ending just before `j` starts. */
  function TrailingStart(s: string, j: nat): (b: nat)
    requires j <= |s|
    ensures b <= j
    ensures TrimmableIn(s, b, j)
    ensures b > 0 ==> !IsTrimmable(s[b - 1])
  {
    if j > 0 && IsTrimmable(s[j - 1]) then TrailingStart(s, j - 1) else j
  }

  /** `note.trim()`: `s` without its leading and trailing white space. The
      result is the slice of `s` between two runs of trimmable characters,
      and it neither starts nor ends with one. */
  function Trim(s: string): (r: string)
    ensures r == [] || (!IsTrimmable(r[0]) && !IsTrimmable(r[|r| - 1]))
    ensures exists i :: 0 <= i <= |s| - |r| && r == s[i..i + |r|]
                        && TrimmableIn(s, 0, i) && TrimmableIn(s, i + |r|, |s|)
  {
    var a := LeadingEnd(s, 0);
    if a == |s| then
      assert TrimmableIn(s, 0, 0);
      []
    else
      var b := TrailingStart(s, |s|);
      assert a < b;
      var r := s[a..b];
      assert r[0] == s[a] && r[|r| - 1] == s[b - 1];
      assert b == a + |r|;
      r
  }

  /** `s.substring(0, n)`: the first `n` characters, or all of `s`. */
  function Truncate(s: string, n: nat): (r: string)
    ensures r <= s
    ensures |r| == if |s| <= n then |s| else n
  {
    if |s| <= n then s else s[..n]
  }

  /** What the form holds when it is submitted. `amount` is the result of
      `parseFloat` in cents, `None` for `NaN`; `category` is the selected
      category's id, `None` when nothing is selected; `date` is `None` when
      the date input is empty. */
  datatype Draft = Draft(
    kind: Kind,
    amount: Option<int>,
    category: Option<string>,
    note: string,
    date: Option<Date>)

  /** The three refusals, in the order they are checked. */
  datatype SubmitError = InvalidAmount | MissingCategory | MissingDate

  /** `!amount || amount <= 0` fails: the amount is `NaN`, zero or negative. */
  predicate AmountRejected(amount: Option<int>)
  {
    amount.None? || amount.value <= 0
  }

  /** Checks a draft and builds the record from it, with the id and the
      creation time the caller supplies. The first failed check decides the
      error; a record that passes has a positive amount, the draft's kind,
      amount, category and date, and the trimmed note cut to its first
      `MaxNoteLength` characters. */
  function BuildRecord(d: Draft, id: string, createdAt: string): (r: Result<Transaction, SubmitError>)
    ensures r == Err(InvalidAmount) <==> AmountRejected(d.amount)
    ensures r == Err(MissingCategory) <==> !AmountRejected(d.amount) && d.category.None?
    ensures r == Err(MissingDate)
        <==> !AmountRejected(d.amount) && d.category.Some? && d.date.None?
    ensures r.Ok? <==> !AmountRejected(d.amount) && d.category.Some? && d.date.Some?
    ensures r.Ok? ==>
      && r.value.id == id
      && r.value.kind == d.kind
      && r.value.amount == d.amount.value > 0
      && r.value.category == d.category.value
      && r.value.date == d.date.value
      && r.value.createdAt == createdAt
      && r.value.note <= Trim(d.note)
      && |r.value.note| == (if |Trim(d.note)| <= MaxNoteLength then |Trim(d.note)| else MaxNoteLength)
  {
    var note := Trim(d.note);
    if AmountRejected(d.amount) then Err(InvalidAmount)
    else if d.category.None? then Err(MissingCategory)
    else if d.date.None? then Err(MissingDate)
    else Ok(Transaction(id, d.kind, d.amount.value, d.category.value,
                        Truncate(note, MaxNoteLength), d.date.value, createdAt))
  }
}
