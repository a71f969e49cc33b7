/** JSON objects whose member names are numbers in text, read into maps over numbers:
    `key` reads a name, `show` prints one.  They are parameters here so that proofs
    about rows need not look into the text of a number. */
module NumberedRows {
  import opened Options

  predicate Row<V>(key: string -> Option<int>, bound: nat, text: string, row: Option<V>) {
    key(text).Some? && 0 <= key(text).value < bound && row.Some?
  }

  predicate Names(key: string -> Option<int>, text: string, n: nat) {
    key(text) == Some(n)
  }

  /** Every row has a value and a number below the bound for a name, and no two rows
      name the same number. */
  ghost predicate Readable<V>(key: string -> Option<int>, bound: nat, rows: map<string, Option<V>>) {
    && (forall t | t in rows :: Row(key, bound, t, rows[t]))
    && (forall t, u, n: nat | t in rows && u in rows && Names(key, t, n) && Names(key, u, n) :: t == u)
  }

  ghost predicate HasRow<V>(key: string -> Option<int>, rows: map<string, Option<V>>, n: nat) {
    exists t | t in rows :: Names(key, t, n)
  }

  ghost function RowFor<V>(key: string -> Option<int>, rows: map<string, Option<V>>, n: nat): (text: string)
    requires HasRow(key, rows, n)
    ensures text in rows && Names(key, text, n)
  {
    var t :| t in rows && Names(key, t, n); t
  }

  /** Each number named by a row has that row's value. */
  ghost function Values<V>(key: string -> Option<int>, bound: nat, rows: map<string, Option<V>>): map<nat, V>
    requires Readable(key, bound, rows)
  {
    map n: nat | n < bound && HasRow(key, rows, n) :: rows[RowFor(key, rows, n)].value
  }

  method Read<V>(key: string -> Option<int>, bound: nat, rows: map<string, Option<V>>)
    returns (values: Option<map<nat, V>>)
    ensures values.Some? <==> Readable(key, bound, rows)
    ensures values.Some? ==> values.value == Values(key, bound, rows)
  {
    var read: map<nat, V>, remaining := map[], rows.Keys;
    while remaining != {}
      invariant remaining <= rows.Keys
      invariant forall t | t in rows.Keys - remaining ::
                  Row(key, bound, t, rows[t]) && key(t).value in read && read[key(t).value] == rows[t].value
      invariant forall n | n in read :: n < bound && exists t | t in rows.Keys - remaining :: Names(key, t, n)
      invariant forall t, u, n: nat | t in rows.Keys - remaining && u in rows.Keys - remaining &&
                  Names(key, t, n) && Names(key, u, n) :: t == u
      decreases remaining
    {
      var text :| text in remaining;
      var number := key(text);
      if rows[text].None? || number.None? { return None; }
      if number.value < 0 || number.value >= bound { return None; }
      assert Names(key, text, number.value);
      if number.value in read { return None; }
      read := read[number.value := rows[text].value];
      remaining := remaining - {text};
    }
    return Some(read);
  }

  ghost predicate PrintsOf<V>(show: nat -> string, values: map<nat, V>, rows: map<string, Option<V>>) {
    && (forall n | n in values :: show(n) in rows)
    && (forall t | t in rows :: exists n | n in values :: t == show(n) && rows[t] == Some(values[n]))
  }

  ghost predicate ReadsBack(key: string -> Option<int>, show: nat -> string) {
    forall n: nat :: key(show(n)) == Some(n)
  }

  lemma PrintedRow<V>(key: string -> Option<int>, show: nat -> string, values: map<nat, V>,
                      rows: map<string, Option<V>>, t: string)
    requires ReadsBack(key, show) && PrintsOf(show, values, rows) && t in rows
    ensures key(t).Some? && key(t).value >= 0
    ensures var n: nat := key(t).value; n in values && t == show(n) && rows[t] == Some(values[n])
  {
    var n :| n in values && t == show(n) && rows[t] == Some(values[n]);
  }

  lemma PrintedRowsReadable<V>(key: string -> Option<int>, show: nat -> string, bound: nat, values: map<nat, V>,
                               rows: map<string, Option<V>>)
    requires ReadsBack(key, show) && PrintsOf(show, values, rows)
    requires forall n | n in values :: n < bound
    ensures Readable(key, bound, rows)
  {
    forall t | t in rows ensures Row(key, bound, t, rows[t]) && t == show(key(t).value) {
      PrintedRow(key, show, values, rows, t);
    }
  }

  /** Printed rows read back as the values printed. */
  lemma PrintedRowsRead<V>(key: string -> Option<int>, show: nat -> string, bound: nat, values: map<nat, V>,
                           rows: map<string, Option<V>>)
    requires ReadsBack(key, show) && PrintsOf(show, values, rows)
    requires forall n | n in values :: n < bound
    ensures Readable(key, bound, rows) && Values(key, bound, rows) == values
  {
    PrintedRowsReadable(key, show, bound, values, rows);
    forall n: nat | n in values || HasRow(key, rows, n)
      ensures n in values && HasRow(key, rows, n) && rows[RowFor(key, rows, n)].value == values[n]
    {
      if n in values { assert Names(key, show(n), n); }
      PrintedRow(key, show, values, rows, RowFor(key, rows, n));
    }
  }
}
