/** The loop of Update, which the modules share (reader_modules/mod_log_mysql/mod_log_mysql.go,
    reader_modules/mod_kafka/mod_kafka.go): of a batch of log entries the requests are converted and
    put into a queue that may be full. */
module UpdateLoop {
  import opened Sequences

  /** One log entry as Update sees it: whether it is a request, and what it is converted to. */
  datatype Entry<T> = Entry(isRequest: bool, made: Option<T>)

  /** What Update tries to put into the queue for an entry. */
  function Wanted<T>(entry: Entry<T>): Option<T> {
    if entry.isRequest then entry.made else None
  }

  /** The requests that could not be converted. */
  function Unconverted<T>(entry: Entry<T>): Option<Entry<T>> {
    if entry.isRequest && entry.made.None? then Some(entry) else None
  }

  /** What becomes of some entries: how many there are, how many requests were converted and how
      many were not, and what found room in the queue. */
  datatype Handling<T> = Handling(logs: nat, made: nat, failed: nat, sent: seq<T>)

  /** What was converted goes into the queue, in order, as long as there is room. */
  function Handle<T>(queue: seq<T>, entries: seq<Entry<T>>, capacity: nat): Handling<T> {
    var made := FilterMap(Wanted, entries);
    Handling(|entries|, |made|, |FilterMap(Unconverted, entries)|, Fitting(queue, made, capacity))
  }

  function Both<T>(x: Handling<T>, y: Handling<T>): Handling<T> {
    Handling(x.logs + y.logs, x.made + y.made, x.failed + y.failed, x.sent + y.sent)
  }

  lemma HandleJoin<T>(queue: seq<T>, a: seq<Entry<T>>, b: seq<Entry<T>>, capacity: nat)
    requires |queue| <= capacity
    ensures var x := Handle(queue, a, capacity);
      Handle(queue, a + b, capacity) == Both(x, Handle(queue + x.sent, b, capacity))
  {
    FilterMapAppend(Wanted, a, b);
    FilterMapAppend(Unconverted, a, b);
    FittingAppend(queue, FilterMap(Wanted, a), FilterMap(Wanted, b), capacity);
  }

  lemma HandleOne<T>(queue: seq<T>, entry: Entry<T>, capacity: nat)
    ensures Handle(queue, [entry], capacity)
         == Handling(1, |Listed(Wanted(entry))|, |Listed(Unconverted(entry))|,
                     if |queue| < capacity then Listed(Wanted(entry)) else [])
  {
    assert FilterMap(Wanted, [entry]) == Listed(Wanted(entry)) + FilterMap(Wanted, []);
    assert FilterMap(Unconverted, [entry]) == Listed(Unconverted(entry)) + FilterMap(Unconverted, []);
  }

  lemma NextEntry<T>(entries: seq<Entry<T>>, i: nat)
    requires i < |entries|
    ensures entries[..i] + [entries[i]] == entries[..i + 1]
  {
  }
}
