/**
 * The mail-merge core of `main`: the unresolved-variable gate, the loop that
 * renders one message per row into the insertion-ordered dict
 * `final_emails`, the preview sample, and the loop that keeps the entries
 * whose key passes the address pattern.
 */
module MailMerge {
  import opened Wrappers
  import opened Extract
  import opened Interpolate
  import opened Templates
  import opened Address

  /** A table row: column name to cell text. */
  type Row = map<string, string>

  /** The CSV as loaded: its column names and its rows, in file order. */
  datatype Table = Table(columns: set<string>, rows: seq<Row>)

  /** Every row holds exactly the table's columns. */
  predicate WellFormedTable(t: Table) {
    forall i | 0 <= i < |t.rows| :: t.rows[i].Keys == t.columns
  }

  /** The (subject, body) pair rendered for one recipient. */
  datatype Message = Message(subject: string, body: string)

  /** The two templates and the body's variable names in the iteration order
      of the set `vars`, which is also the order of every `val_dict`. */
  datatype MessageTemplate = MessageTemplate(body: string, title: string, vars: seq<string>)

  /** A Python dict: keys in first-insertion order, and each key's value. */
  datatype Dict<V> = Dict(order: seq<string>, entries: map<string, V>) {
    /** `d[k] = v`: a new key goes last; an existing key keeps its place and
        gets the new value. */
    function Put(k: string, v: V): (r: Dict<V>)
      ensures k in r.entries && r.entries[k] == v
      ensures r.entries.Keys == entries.Keys + {k}
      ensures forall j | j in entries && j != k :: r.entries[j] == entries[j]
      ensures |order| <= |r.order| && r.order[..|order|] == order
      ensures k in entries ==> r.order == order
      ensures k !in entries ==> r.order == order + [k]
    {
      Dict(if k in entries then order else order + [k], entries[k := v])
    }
  }

  predicate Distinct(xs: seq<string>) {
    forall i, j | 0 <= i < j < |xs| :: xs[i] != xs[j]
  }

  /** `xs` lists the elements of `s`, each once. */
  predicate Enumerates(xs: seq<string>, s: set<string>) {
    Distinct(xs) && (forall x | x in xs :: x in s) && (forall x | x in s :: x in xs)
  }

  // ------------------------------------------------------------------- gate

  /** `vars.difference(set(df.keys()))`: the run halts when this is not
      empty, reporting these names. Only the body template is checked. */
  function Unresolved(body: string, columns: set<string>): (r: set<string>)
    ensures r == {} <==> ExtractVars(body) <= columns
    ensures r <= ExtractVars(body) && r !! columns
    ensures ExtractVars(body) <= columns + r
  {
    ExtractVars(body) - columns
  }

  /** A body using `first` and `missing`, as pieces. */
  function GateExamplePieces(): seq<Piece> {
    [Hole("first"), Text(" and "), Hole("missing")]
  }

  lemma GateExampleRender()
    ensures Render(GateExamplePieces()) == Marker("first") + " and " + Marker("missing")
  {
    var ps := GateExamplePieces();
    assert Render(ps[2..][1..]) == [] by { assert ps[2..][1..] == []; }
    assert ps[1..][1..] == ps[2..];
  }

  lemma GateExampleHoles()
    ensures Holes(GateExamplePieces()) == ["first", "missing"]
  {
    var ps := GateExamplePieces();
    assert Holes(ps[2..][1..]) == [] by { assert ps[2..][1..] == []; }
    assert ps[1..][1..] == ps[2..];
  }

  lemma GateExampleWellFormed()
    ensures WellFormed(GateExamplePieces())
  {
    assert PlainText(" and ") && PlainName("first") && PlainName("missing");
  }

  /** Columns `Email, first` and a body using `first` and `missing` report
      exactly `missing`. */
  lemma UnresolvedExample()
    ensures Unresolved(Marker("first") + " and " + Marker("missing"), {"Email", "first"}) == {"missing"}
  {
    GateExampleRender();
    GateExampleHoles();
    GateExampleWellFormed();
    ExtractRender(GateExamplePieces());
    assert (set n | n in ["first", "missing"]) == {"first", "missing"};
  }

  // ----------------------------------------------------------------- render

  /** Every row holds the recipient column and every variable. */
  predicate AllRenderable(rows: seq<Row>, emailKey: string, vars: seq<string>) {
    forall i | 0 <= i < |rows| :: emailKey in rows[i] && forall v | v in vars :: v in rows[i]
  }

  /** `{var: row[var] for var in vars}`, in the iteration order of `vars`. */
  function ValDict(vars: seq<string>, row: Row): seq<(string, string)>
    requires forall v | v in vars :: v in row
  {
    seq(|vars|, i requires 0 <= i < |vars| => (vars[i], row[vars[i]]))
  }

  /** The loop body for one row: the title and the body, each interpolated
      with the body's variables only. */
  function RenderRow(tpl: MessageTemplate, row: Row): Message
    requires forall v | v in tpl.vars :: v in row
  {
    var valDict := ValDict(tpl.vars, row);
    Message(Interpolated(tpl.title, valDict), Interpolated(tpl.body, valDict))
  }

  /** The recipient of each row, in row order. */
  function Recipients(rows: seq<Row>, emailKey: string): (r: seq<string>)
    requires forall i | 0 <= i < |rows| :: emailKey in rows[i]
    ensures |r| == |rows| && forall i | 0 <= i < |rows| :: r[i] == rows[i][emailKey]
  {
    seq(|rows|, i requires 0 <= i < |rows| => rows[i][emailKey])
  }

  /** Index of the first occurrence of `x`. */
  function FirstIndex(xs: seq<string>, x: string): (r: nat)
    requires x in xs
    ensures r < |xs| && xs[r] == x
    ensures forall j | 0 <= j < r :: xs[j] != x
  {
    if xs[0] == x then 0 else 1 + FirstIndex(xs[1..], x)
  }

  /** Index of the last occurrence of `x`. */
  function LastIndex(xs: seq<string>, x: string): (r: nat)
    requires x in xs
    ensures r < |xs| && xs[r] == x
    ensures forall j | r < j < |xs| :: xs[j] != x
  {
    if xs[|xs| - 1] == x then |xs| - 1
    else
      assert x in xs[..|xs| - 1] by {
        var i :| 0 <= i < |xs| && xs[i] == x;
        assert xs[..|xs| - 1][i] == x;
      }
      LastIndex(xs[..|xs| - 1], x)
  }

  /** First indices of elements of `front` do not change when `xs` grows. */
  lemma FirstIndexExtend(front: seq<string>, last: string)
    ensures forall y | y in front :: FirstIndex(front + [last], y) == FirstIndex(front, y)
    ensures last !in front ==> FirstIndex(front + [last], last) == |front|
  {
    var xs := front + [last];
    forall y | y in front
      ensures FirstIndex(xs, y) == FirstIndex(front, y)
    {
      var i := FirstIndex(front, y);
      assert xs[i] == y;
      assert forall j | 0 <= j < i :: xs[j] == front[j];
    }
  }

  /** The distinct elements of `xs`, each where it first occurs. */
  function FirstOccurrences(xs: seq<string>): (r: seq<string>)
    ensures Distinct(r)
    ensures forall x :: x in r <==> x in xs
    ensures xs != [] ==> r != [] && r[0] == xs[0]
    decreases |xs|
  {
    if xs == [] then []
    else
      var front := xs[..|xs| - 1];
      var last := xs[|xs| - 1];
      var prev := FirstOccurrences(front);
      assert xs == front + [last];
      if last in prev then prev else prev + [last]
  }

  /** Every element of `r` occurs in `xs`, and `r` lists them by increasing
      first index in `xs`. */
  predicate InFirstIndexOrder(r: seq<string>, xs: seq<string>) {
    && (forall i | 0 <= i < |r| :: r[i] in xs)
    && forall a, b | 0 <= a < b < |r| :: FirstIndex(xs, r[a]) < FirstIndex(xs, r[b])
  }

  /** A new element of `xs` keeps `r` in order, and may follow it. */
  lemma InFirstIndexOrderSnoc(r: seq<string>, front: seq<string>, last: string)
    requires InFirstIndexOrder(r, front) && last !in front
    ensures InFirstIndexOrder(r + [last], front + [last])
  {
    var xs := front + [last];
    InFirstIndexOrderRepeat(r, front, last);
    FirstIndexExtend(front, last);
    assert forall i | 0 <= i < |r| :: FirstIndex(xs, r[i]) < FirstIndex(xs, last);
    var r' := r + [last];
    assert forall i | 0 <= i < |r| :: r'[i] == r[i];
  }

  /** A known element of `front` keeps `r` in order when `xs` grows. */
  lemma InFirstIndexOrderRepeat(r: seq<string>, front: seq<string>, last: string)
    requires InFirstIndexOrder(r, front)
    ensures InFirstIndexOrder(r, front + [last])
  {
    FirstIndexExtend(front, last);
  }

  /** The distinct elements come in order of their first occurrence. */
  lemma {:induction false} FirstOccurrencesOrdered(xs: seq<string>)
    ensures InFirstIndexOrder(FirstOccurrences(xs), xs)
    decreases |xs|
  {
    if xs != [] {
      var front := xs[..|xs| - 1];
      var last := xs[|xs| - 1];
      FirstOccurrencesOrdered(front);
      assert xs == front + [last];
      if last in front {
        InFirstIndexOrderRepeat(FirstOccurrences(front), front, last);
      } else {
        InFirstIndexOrderSnoc(FirstOccurrences(front), front, last);
      }
    }
  }

  /** What `final_emails` holds after the loop over `rows`: the recipients in
      order of first occurrence, each with the message rendered from the LAST
      row that carries it. */
  function FinalEmails(tpl: MessageTemplate, rows: seq<Row>, emailKey: string): (r: Dict<Message>)
    requires AllRenderable(rows, emailKey, tpl.vars)
    ensures Distinct(r.order)
    ensures forall k :: k in r.order <==> k in r.entries
    ensures forall k :: k in r.entries <==> k in Recipients(rows, emailKey)
  {
    var recipients := Recipients(rows, emailKey);
    Dict(FirstOccurrences(recipients), LatestMessages(tpl, rows, emailKey))
  }

  /** Each recipient's latest message. */
  function LatestMessages(tpl: MessageTemplate, rows: seq<Row>, emailKey: string): map<string, Message>
    requires AllRenderable(rows, emailKey, tpl.vars)
  {
    map k | k in Recipients(rows, emailKey) :: LatestMessage(tpl, rows, emailKey, k)
  }

  /** The message of recipient `k`: the one rendered from the last row that
      carries `k`, since each later row overwrites the entry. */
  function LatestMessage(tpl: MessageTemplate, rows: seq<Row>, emailKey: string, k: string): Message
    requires AllRenderable(rows, emailKey, tpl.vars)
    requires k in Recipients(rows, emailKey)
  {
    RenderRow(tpl, rows[LastIndex(Recipients(rows, emailKey), k)])
  }

  /** One entry per distinct recipient, and each row's recipient has one. */
  lemma OneEntryPerRecipient(tpl: MessageTemplate, rows: seq<Row>, emailKey: string)
    requires AllRenderable(rows, emailKey, tpl.vars)
    ensures var d := FinalEmails(tpl, rows, emailKey);
      && (forall i | 0 <= i < |rows| :: rows[i][emailKey] in d.entries)
      && (forall k | k in d.entries :: exists i | 0 <= i < |rows| :: rows[i][emailKey] == k)
  {
    var recipients := Recipients(rows, emailKey);
    forall k | k in recipients ensures exists i | 0 <= i < |rows| :: rows[i][emailKey] == k {
      var i :| 0 <= i < |recipients| && recipients[i] == k;
    }
  }

  /** A recipient keeps the place of the first row that carries it: the
      dict's order sorts the recipients by the index of their first row. */
  lemma EntriesInFirstRowOrder(tpl: MessageTemplate, rows: seq<Row>, emailKey: string)
    requires AllRenderable(rows, emailKey, tpl.vars)
    ensures InFirstIndexOrder(FinalEmails(tpl, rows, emailKey).order, Recipients(rows, emailKey))
  {
    FirstOccurrencesOrdered(Recipients(rows, emailKey));
  }

  /** The last row with a recipient decides its message: no later row carries
      that recipient. */
  lemma LastRowWins(tpl: MessageTemplate, rows: seq<Row>, emailKey: string, k: string)
    requires AllRenderable(rows, emailKey, tpl.vars)
    requires k in FinalEmails(tpl, rows, emailKey).entries
    ensures exists i | 0 <= i < |rows| ::
      && rows[i][emailKey] == k
      && FinalEmails(tpl, rows, emailKey).entries[k] == RenderRow(tpl, rows[i])
      && forall j | i < j < |rows| :: rows[j][emailKey] != k
  {
    var recipients := Recipients(rows, emailKey);
    var i := LastIndex(recipients, k);
    assert forall j | i < j < |rows| :: rows[j][emailKey] == recipients[j];
  }

  lemma RecipientsSnoc(rows: seq<Row>, emailKey: string, row: Row)
    requires forall i | 0 <= i < |rows| :: emailKey in rows[i]
    requires emailKey in row
    ensures Recipients(rows + [row], emailKey) == Recipients(rows, emailKey) + [row[emailKey]]
  {
    var rows' := rows + [row];
    assert forall i | 0 <= i < |rows| :: rows'[i] == rows[i];
  }

  lemma FirstOccurrencesSnoc(xs: seq<string>, x: string)
    ensures FirstOccurrences(xs + [x])
         == if x in FirstOccurrences(xs) then FirstOccurrences(xs) else FirstOccurrences(xs) + [x]
  {
    assert (xs + [x])[..|xs|] == xs;
  }

  lemma LastIndexSnoc(xs: seq<string>, x: string, k: string)
    requires k in xs + [x]
    ensures k != x ==> k in xs && LastIndex(xs + [x], k) == LastIndex(xs, k)
    ensures k == x ==> LastIndex(xs + [x], k) == |xs|
  {
    if k != x {
      var i :| 0 <= i < |xs + [x]| && (xs + [x])[i] == k;
      assert xs[i] == k;
      assert (xs + [x])[..|xs|] == xs;
    }
  }

  /** A row that holds the recipient column and the variables extends a
      renderable table. */
  lemma RenderableSnoc(rows: seq<Row>, emailKey: string, vars: seq<string>, row: Row)
    requires AllRenderable(rows, emailKey, vars)
    requires emailKey in row && forall v | v in vars :: v in row
    ensures AllRenderable(rows + [row], emailKey, vars)
  {
    assert forall i | 0 <= i < |rows| :: (rows + [row])[i] == rows[i];
    assert (rows + [row])[|rows|] == row;
  }

  lemma LatestMessageSnoc(tpl: MessageTemplate, rows: seq<Row>, emailKey: string, row: Row, k: string)
    requires AllRenderable(rows, emailKey, tpl.vars)
    requires emailKey in row && forall v | v in tpl.vars :: v in row
    requires AllRenderable(rows + [row], emailKey, tpl.vars)
    requires k in Recipients(rows + [row], emailKey)
    ensures k != row[emailKey] ==>
      k in Recipients(rows, emailKey) && LatestMessage(tpl, rows + [row], emailKey, k) == LatestMessage(tpl, rows, emailKey, k)
    ensures k == row[emailKey] ==> LatestMessage(tpl, rows + [row], emailKey, k) == RenderRow(tpl, row)
  {
    var rows' := rows + [row];
    assert forall i | 0 <= i < |rows| :: rows'[i] == rows[i];
    assert rows'[|rows|] == row;
    var recipients := Recipients(rows, emailKey);
    RecipientsSnoc(rows, emailKey, row);
    LastIndexSnoc(recipients, row[emailKey], k);
    if k != row[emailKey] {
      var j := LastIndex(recipients, k);
      assert rows'[j] == rows[j];
    }
  }

  /** The entries after one more row: the new row's message under its
      recipient, every other entry as before. */
  lemma EntriesSnoc(tpl: MessageTemplate, rows: seq<Row>, emailKey: string, row: Row)
    requires AllRenderable(rows, emailKey, tpl.vars)
    requires emailKey in row && forall v | v in tpl.vars :: v in row
    requires AllRenderable(rows + [row], emailKey, tpl.vars)
    ensures LatestMessages(tpl, rows + [row], emailKey)
         == LatestMessages(tpl, rows, emailKey)[row[emailKey] := RenderRow(tpl, row)]
  {
    var x := row[emailKey];
    var before := LatestMessages(tpl, rows, emailKey);
    var after := LatestMessages(tpl, rows + [row], emailKey);
    var expected := before[x := RenderRow(tpl, row)];
    RecipientsSnoc(rows, emailKey, row);
    assert after.Keys == expected.Keys by {
      assert forall k :: k in after <==> k in Recipients(rows, emailKey) + [x];
      assert forall k :: k in expected <==> k in Recipients(rows, emailKey) || k == x;
    }
    forall k | k in after
      ensures after[k] == expected[k]
    {
      LatestMessageSnoc(tpl, rows, emailKey, row, k);
    }
  }

  /** One more row is one more `Put` into the dict. */
  lemma FinalEmailsSnoc(tpl: MessageTemplate, rows: seq<Row>, emailKey: string, row: Row)
    requires AllRenderable(rows, emailKey, tpl.vars)
    requires emailKey in row && forall v | v in tpl.vars :: v in row
    ensures AllRenderable(rows + [row], emailKey, tpl.vars)
    ensures FinalEmails(tpl, rows + [row], emailKey)
         == FinalEmails(tpl, rows, emailKey).Put(row[emailKey], RenderRow(tpl, row))
  {
    RenderableSnoc(rows, emailKey, tpl.vars, row);
    RecipientsSnoc(rows, emailKey, row);
    FirstOccurrencesSnoc(Recipients(rows, emailKey), row[emailKey]);
    EntriesSnoc(tpl, rows, emailKey, row);
  }

  /** The render loop of `main`: one `interpolate_vars` call for the body and
      one for the title per row, then `final_emails[row[email_key]] = ...`. */
  method RenderEmails(tpl: MessageTemplate, rows: seq<Row>, emailKey: string) returns (finalEmails: Dict<Message>)
    requires AllRenderable(rows, emailKey, tpl.vars)
    ensures finalEmails == FinalEmails(tpl, rows, emailKey)
  {
    finalEmails := Dict([], map[]);
    assert rows[..0] == [];
    for i := 0 to |rows|
      invariant AllRenderable(rows[..i], emailKey, tpl.vars)
      invariant finalEmails == FinalEmails(tpl, rows[..i], emailKey)
    {
      var row := rows[i];
      var valDict := ValDict(tpl.vars, row);
      var interpolatedBody := InterpolateVars(tpl.body, valDict);
      var interpolatedTitle := InterpolateVars(tpl.title, valDict);
      assert rows[..i + 1] == rows[..i] + [row];
      FinalEmailsSnoc(tpl, rows[..i], emailKey, row);
      finalEmails := finalEmails.Put(row[emailKey], Message(interpolatedTitle, interpolatedBody));
    }
    assert rows[..|rows|] == rows;
  }

  /** `next(iter(final_emails.items()))`: the preview sample is the first
      row's recipient, with the message of the last row that shares it;
      with no rows there is no entry and `next` raises. */
  lemma SampleIsFirstRow(tpl: MessageTemplate, rows: seq<Row>, emailKey: string)
    requires AllRenderable(rows, emailKey, tpl.vars)
    ensures var d := FinalEmails(tpl, rows, emailKey);
      && (d.order == [] <==> rows == [])
      && (rows != [] ==>
            && d.order[0] == rows[0][emailKey]
            && d.entries[d.order[0]] == RenderRow(tpl, rows[LastIndex(Recipients(rows, emailKey), rows[0][emailKey])]))
  {
    var recipients := Recipients(rows, emailKey);
    if rows == [] {
      assert recipients == [];
    }
  }

  /** Two rows with one recipient give one entry: placed as the first row,
      holding the second row's message. */
  lemma DuplicateRecipient(tpl: MessageTemplate, first: Row, second: Row, emailKey: string)
    requires emailKey in first && emailKey in second && first[emailKey] == second[emailKey]
    requires forall v | v in tpl.vars :: v in first && v in second
    ensures AllRenderable([first, second], emailKey, tpl.vars)
    ensures var d := FinalEmails(tpl, [first, second], emailKey);
      d.order == [first[emailKey]] && d.entries[first[emailKey]] == RenderRow(tpl, second)
  {
    var k := first[emailKey];
    assert AllRenderable([first, second], emailKey, tpl.vars);
    var recipients := Recipients([first, second], emailKey);
    assert recipients == [k, k];
    assert [k, k][..1] == [k] && [k][..0] == [];
    assert FirstOccurrences([k]) == [k];
    assert FirstOccurrences([k, k]) == [k];
    assert LastIndex(recipients, k) == 1;
  }

  /** The body's variables all being filled, a plain body template has no
      placeholder left after rendering. */
  lemma BodyFullyResolved(tpl: MessageTemplate, row: Row, ps: seq<Piece>)
    requires forall v | v in tpl.vars :: v in row
    requires tpl.body == Render(ps) && WellFormed(ps)
    requires forall v | v in ExtractVars(tpl.body) :: v in tpl.vars
    requires forall v | v in tpl.vars :: PlainName(v) && PlainText(row[v])
    ensures ExtractVars(RenderRow(tpl, row).body) == {}
  {
    var valDict := ValDict(tpl.vars, row);
    assert PlainPairs(valDict);
    InterpolateResolves(ps, valDict);
    assert forall v | v in tpl.vars :: v in Keys(valDict) by {
      forall v | v in tpl.vars ensures v in Keys(valDict) {
        var i :| 0 <= i < |tpl.vars| && tpl.vars[i] == v;
        assert valDict[i].0 == v;
      }
    }
  }

  /** Only the body's variables are substituted into the title: a title
      placeholder naming a column that the body does not use stays, literally,
      in the subject. */
  lemma TitleKeepsOtherColumns(tpl: MessageTemplate, row: Row, ps: seq<Piece>, column: string)
    requires forall v | v in tpl.vars :: v in row
    requires tpl.title == Render(ps) && WellFormed(ps)
    requires column in Holes(ps) && column !in tpl.vars
    requires forall v | v in tpl.vars :: PlainName(v) && PlainText(row[v])
    ensures column in ExtractVars(RenderRow(tpl, row).subject)
  {
    var valDict := ValDict(tpl.vars, row);
    assert PlainPairs(valDict);
    InterpolateResolves(ps, valDict);
    ExtractRender(ps);
    assert column !in Keys(valDict);
  }

  // ----------------------------------------------------------------- filter

  /** One entry of the batch: sender, a single recipient, subject, HTML. */
  datatype SendParams = SendParams(sender: string, to: seq<string>, subject: string, html: string)

  /** The batch entry built for a recipient and its message. */
  function ParamsFor(email: string, content: Message, sender: string, markdown: string -> string): SendParams {
    SendParams(sender, [email], content.subject, markdown(content.body))
  }

  /** The entries, in dict order, whose key passes the address pattern. */
  function AcceptedParams(order: seq<string>, entries: map<string, Message>, sender: string,
                          markdown: string -> string, isWord: char -> bool): seq<SendParams>
    requires forall k | k in order :: k in entries
    decreases |order|
  {
    if order == [] then []
    else
      var email := order[|order| - 1];
      var prev := AcceptedParams(order[..|order| - 1], entries, sender, markdown, isWord);
      if IsAddress(email, isWord) then prev + [ParamsFor(email, entries[email], sender, markdown)] else prev
  }

  /** One unfolding of `AcceptedParams`: the last key is appended when it
      passes the pattern. */
  lemma AcceptedLast(order: seq<string>, entries: map<string, Message>, sender: string,
                     markdown: string -> string, isWord: char -> bool)
    requires order != [] && forall k | k in order :: k in entries
    ensures forall k | k in order[..|order| - 1] :: k in order && k in entries
    ensures var last := order[|order| - 1];
      var prev := AcceptedParams(order[..|order| - 1], entries, sender, markdown, isWord);
      AcceptedParams(order, entries, sender, markdown, isWord)
        == if IsAddress(last, isWord) then prev + [ParamsFor(last, entries[last], sender, markdown)] else prev
  {
    forall k | k in order[..|order| - 1] ensures k in order {
      var i :| 0 <= i < |order| - 1 && order[..|order| - 1][i] == k;
      assert order[i] == k;
    }
  }

  /** Every batch entry goes to one key of the dict that passes the pattern,
      with that key's subject and rendered body. */
  lemma {:induction false} AcceptedSound(order: seq<string>, entries: map<string, Message>, sender: string,
                                         markdown: string -> string, isWord: char -> bool)
    requires forall k | k in order :: k in entries
    ensures var ps := AcceptedParams(order, entries, sender, markdown, isWord);
      forall i | 0 <= i < |ps| ::
        && |ps[i].to| == 1
        && ps[i].to[0] in order
        && IsAddress(ps[i].to[0], isWord)
        && ps[i] == ParamsFor(ps[i].to[0], entries[ps[i].to[0]], sender, markdown)
    decreases |order|
  {
    if order != [] {
      AcceptedLast(order, entries, sender, markdown, isWord);
      AcceptedSound(order[..|order| - 1], entries, sender, markdown, isWord);
    }
  }

  /** Every key that passes the pattern gets a batch entry; keys that fail are
      skipped without stopping the loop. */
  lemma {:induction false} AcceptedComplete(order: seq<string>, entries: map<string, Message>, sender: string,
                                            markdown: string -> string, isWord: char -> bool)
    requires forall k | k in order :: k in entries
    ensures var ps := AcceptedParams(order, entries, sender, markdown, isWord);
      forall k | k in order && IsAddress(k, isWord) :: exists i | 0 <= i < |ps| :: ps[i].to == [k]
    decreases |order|
  {
    if order != [] {
      var front := order[..|order| - 1];
      var prev := AcceptedParams(front, entries, sender, markdown, isWord);
      var ps := AcceptedParams(order, entries, sender, markdown, isWord);
      AcceptedLast(order, entries, sender, markdown, isWord);
      AcceptedComplete(front, entries, sender, markdown, isWord);
      assert forall i | 0 <= i < |prev| :: ps[i] == prev[i];
      forall k | k in order && IsAddress(k, isWord)
        ensures exists i | 0 <= i < |ps| :: ps[i].to == [k]
      {
        if k == order[|order| - 1] {
          assert ps[|ps| - 1].to == [k];
        } else {
          var j :| 0 <= j < |order| && order[j] == k;
          assert front[j] == k;
        }
      }
    }
  }

  /** Each entry of `ps` goes to a single key of `order`, and the entries
      follow the order of their keys. */
  predicate InKeyOrder(ps: seq<SendParams>, order: seq<string>) {
    && (forall i | 0 <= i < |ps| :: |ps[i].to| == 1 && ps[i].to[0] in order)
    && forall a, b | 0 <= a < b < |ps| :: FirstIndex(order, ps[a].to[0]) < FirstIndex(order, ps[b].to[0])
  }

  /** A new last key keeps the entries in key order, and an entry for it may
      follow them. */
  lemma InKeyOrderSnoc(ps: seq<SendParams>, front: seq<string>, last: string, p: SendParams)
    requires InKeyOrder(ps, front) && last !in front && p.to == [last]
    ensures InKeyOrder(ps + [p], front + [last])
  {
    var order := front + [last];
    InKeyOrderGrow(ps, front, last);
    FirstIndexExtend(front, last);
    assert forall i | 0 <= i < |ps| :: FirstIndex(order, ps[i].to[0]) < FirstIndex(order, last);
    var ps' := ps + [p];
    assert forall i | 0 <= i < |ps| :: ps'[i] == ps[i];
    assert ps'[|ps|] == p;
  }

  /** Entries in key order stay so when a key is added after the others. */
  lemma InKeyOrderGrow(ps: seq<SendParams>, front: seq<string>, last: string)
    requires InKeyOrder(ps, front)
    ensures InKeyOrder(ps, front + [last])
  {
    FirstIndexExtend(front, last);
  }

  /** The batch follows the dict's order. */
  lemma {:induction false} AcceptedInOrder(order: seq<string>, entries: map<string, Message>, sender: string,
                                           markdown: string -> string, isWord: char -> bool)
    requires forall k | k in order :: k in entries
    requires Distinct(order)
    ensures InKeyOrder(AcceptedParams(order, entries, sender, markdown, isWord), order)
    decreases |order|
  {
    if order != [] {
      var front := order[..|order| - 1];
      var last := order[|order| - 1];
      AcceptedLast(order, entries, sender, markdown, isWord);
      assert Distinct(front);
      AcceptedInOrder(front, entries, sender, markdown, isWord);
      assert order == front + [last];
      assert last !in front;
      var prev := AcceptedParams(front, entries, sender, markdown, isWord);
      if IsAddress(last, isWord) {
        InKeyOrderSnoc(prev, front, last, ParamsFor(last, entries[last], sender, markdown));
      } else {
        InKeyOrderGrow(prev, front, last);
      }
    }
  }

  /** The send loop of `main`: skip a key that fails the pattern, otherwise
      append its batch entry. */
  method BuildParams(finalEmails: Dict<Message>, sender: string, markdown: string -> string,
                     isWord: char -> bool) returns (params: seq<SendParams>)
    requires forall k | k in finalEmails.order :: k in finalEmails.entries
    ensures params == AcceptedParams(finalEmails.order, finalEmails.entries, sender, markdown, isWord)
  {
    var order := finalEmails.order;
    params := [];
    assert order[..0] == [];
    for i := 0 to |order|
      invariant params == AcceptedParams(order[..i], finalEmails.entries, sender, markdown, isWord)
    {
      var email := order[i];
      var content := finalEmails.entries[email];
      assert order[..i + 1][..i] == order[..i];
      assert order[..i + 1][i] == email;
      if !IsAddress(email, isWord) {
        continue;
      }
      var html := markdown(content.body);
      params := params + [SendParams(sender, [email], content.subject, html)];
    }
    assert order[..|order|] == order;
  }

  // -------------------------------------------------------------------- run

  datatype Failure =
    | MissingKeyColumn(key: string)           // `drop_duplicates(subset=[email_key])` raises KeyError on a non-empty table
    | UnresolvedVariables(names: set<string>) // `error(...)` after the gate
    | NoRows                                  // `next` on an empty dict raises StopIteration

  /** The preview sample and the batch handed to the provider. */
  datatype Outcome = Outcome(sampleEmail: string, sampleHtml: string, batch: seq<SendParams>)

  /** `main` from loading the table to the batch send, without prompts, file
      writes or the network: the checks in their order, the render loop, the
      sample and the send loop. */
  method Run(table: Table, emailKey: string, body: string, title: string, vars: seq<string>,
             sender: string, markdown: string -> string, isWord: char -> bool)
    returns (r: Result<Outcome, Failure>)
    requires WellFormedTable(table)
    requires Enumerates(vars, ExtractVars(body))
    ensures emailKey !in table.columns && table.rows != [] ==> r == Failure(MissingKeyColumn(emailKey))
    ensures (emailKey in table.columns || table.rows == []) && Unresolved(body, table.columns) != {} ==>
      r == Failure(UnresolvedVariables(Unresolved(body, table.columns)))
    ensures Unresolved(body, table.columns) == {} && table.rows == [] ==> r == Failure(NoRows)
    ensures r.Success? <==> emailKey in table.columns && ExtractVars(body) <= table.columns && table.rows != []
    ensures r.Success? ==>
      && AllRenderable(table.rows, emailKey, vars)
      && var emails := FinalEmails(MessageTemplate(body, title, vars), table.rows, emailKey);
         && emails.order != []
         && r.value.sampleEmail == table.rows[0][emailKey]
         && r.value.sampleHtml == markdown(emails.entries[emails.order[0]].body)
         && r.value.batch == AcceptedParams(emails.order, emails.entries, sender, markdown, isWord)
  {
    if emailKey !in table.columns && |table.rows| > 0 {
      return Failure(MissingKeyColumn(emailKey));
    }
    var unresolved := Unresolved(body, table.columns);
    if |unresolved| > 0 {
      return Failure(UnresolvedVariables(unresolved));
    }
    var tpl := MessageTemplate(body, title, vars);
    assert AllRenderable(table.rows, emailKey, vars) by {
      forall i | 0 <= i < |table.rows| ensures emailKey in table.rows[i] && forall v | v in vars :: v in table.rows[i] {
        assert table.rows[i].Keys == table.columns;
      }
    }
    var finalEmails := RenderEmails(tpl, table.rows, emailKey);
    if |finalEmails.order| == 0 {
      SampleIsFirstRow(tpl, table.rows, emailKey);
      return Failure(NoRows);
    }
    SampleIsFirstRow(tpl, table.rows, emailKey);
    var sampleEmail := finalEmails.order[0];
    var sampleHtml := markdown(finalEmails.entries[sampleEmail].body);
    var params := BuildParams(finalEmails, sender, markdown, isWord);
    return Success(Outcome(sampleEmail, sampleHtml, params));
  }
}
