/**
 The function lookup of LLDBScope: a cache that is filled on demand from the symbol
 tables of the debugger, which answer as an oracle.
 */
module Scope {
  import opened Lldb

  datatype SymbolType = Code | Resolver | Other

  /** A display name is never empty.  (For an empty name the internal scope would make
      one up from the names it has made up before.) */
  type DisplayName = s: string | s != "" witness "f"

  /** What is read from an SBSymbol: its type, load start, name and display name. */
  datatype Symbol = Symbol(kind: SymbolType, start: nat, name: Option<string>, displayName: Option<DisplayName>)

  /** ResolveSymbolContextForAddress on a fixed target; None when the address or the
      symbol found is not valid. */
  type Oracle = nat -> Option<Symbol>

  /** A function symbol in the internal scope: entry address and name. */
  datatype Entry = Entry(key: nat, name: string)

  /** The name a function is registered under. */
  function FunctionName(symbol: Symbol): (name: string)
    ensures name != ""
  {
    var name := if symbol.name.None? || symbol.name.value == "" then "func_unknown" else symbol.name.value;
    if symbol.displayName.Some? then symbol.displayName.value else name
  }

  /** ScopeInternal::findFunction: the first entry at exactly this address. */
  function Find(cache: seq<Entry>, key: nat): (r: Option<Entry>)
    ensures r.Some? ==> r.value in cache && r.value.key == key
    ensures r.None? ==> forall e :: e in cache ==> e.key != key
  {
    if cache == [] then None
    else if cache[0].key == key then Some(cache[0])
    else Find(cache[1..], key)
  }

  /* ---------- what the lookups do ---------- */

  /** A symbol that yields a function: code or resolver, loaded somewhere. */
  predicate IsFunction(symbol: Symbol) {
    symbol.kind != Other && symbol.start != INVALID_ADDRESS
  }

  /** The cache after an LLDB query for an address. */
  function AfterQuery(oracle: Oracle, cache: seq<Entry>, addr: nat, contain: bool): seq<Entry> {
    match oracle(addr)
    case None => cache
    case Some(symbol) =>
      if IsFunction(symbol) && (contain || symbol.start == addr) && Find(cache, symbol.start).None?
      then cache + [Entry(symbol.start, FunctionName(symbol))]
      else cache
  }

  /** The function symbol such a query returns, found in the cache it leaves. */
  function QueryResult(oracle: Oracle, cache': seq<Entry>, addr: nat, contain: bool): Option<Entry> {
    match oracle(addr)
    case None => None
    case Some(symbol) =>
      if IsFunction(symbol) && (contain || symbol.start == addr) then Find(cache', symbol.start) else None
  }

  /** What an entry lookup returns: the entry the internal scope had, the map entry of a
      function symbol, or nothing. */
  datatype Lookup = CachedEntry | MapEntryOf(symbol: Entry) | NoEntry

  /** The low 32 bits of a difference of addresses as a signed number. */
  function Int4(x: nat): (r: int)
    ensures -0x8000_0000 <= r < 0x8000_0000 && (x - r) % 0x1_0000_0000 == 0
  {
    var low := x % 0x1_0000_0000;
    if low < 0x8000_0000 then low else low - 0x1_0000_0000
  }

  /** Symbol::getMapEntry for a function symbol, whose only map entry takes `size` bytes
      from its key. */
  function MapEntry(e: Entry, addr: nat, size: nat): Lookup {
    if addr < e.key then NoEntry
    else if Int4(addr - e.key) >= size then NoEntry
    else MapEntryOf(e)
  }

  function LookupResult(hit: bool, sym: Option<Entry>, addr: nat, size: nat): Lookup {
    if hit then CachedEntry
    else if sym.Some? then MapEntry(sym.value, addr, size)
    else NoEntry
  }

  /** A call on the scope.  `hit` is whether the internal scope already has an entry,
      of any sort, for the range asked for. */
  datatype Call =
    | FindAddr(addr: nat, hit: bool)
    | FindContainer(addr: nat, hit: bool)
    | FindFunction(addr: nat)
    | Clear

  function After(oracle: Oracle, cache: seq<Entry>, call: Call): seq<Entry> {
    match call
    case FindAddr(addr, hit) => if hit then cache else AfterQuery(oracle, cache, addr, false)
    case FindContainer(addr, hit) => if hit then cache else AfterQuery(oracle, cache, addr, true)
    case FindFunction(addr) => if Find(cache, addr).Some? then cache else AfterQuery(oracle, cache, addr, false)
    case Clear => []
  }

  /** What findFunction answers in a given cache. */
  function Answer(oracle: Oracle, cache: seq<Entry>, addr: nat): Option<Entry> {
    Find(After(oracle, cache, FindFunction(addr)), addr)
  }

  /** The cache after a history of calls on a new scope. */
  function Reached(oracle: Oracle, history: seq<Call>): seq<Entry> {
    if history == [] then []
    else After(oracle, Reached(oracle, history[..|history| - 1]), history[|history| - 1])
  }

  /* ---------- the scope object ---------- */

  class LLDBScope {
    const oracle: Oracle
    /** The bytes a function symbol takes from its address on (min_funcsymbol_size). */
    const size: nat
    var cache: seq<Entry>

    constructor (oracle: Oracle, size: nat)
      ensures this.oracle == oracle && this.size == size && cache == Reached(oracle, [])
    {
      this.oracle := oracle;
      this.size := size;
      cache := [];
    }

    /** Returns the entry of the symbol's start address, adding it if there is none. */
    method RegisterFunction(symbol: Symbol) returns (r: Option<Entry>)
      modifies this`cache
      ensures symbol.start == INVALID_ADDRESS ==> r.None? && cache == old(cache)
      ensures symbol.start != INVALID_ADDRESS ==> r.Some? && r == Find(cache, symbol.start)
      ensures symbol.start != INVALID_ADDRESS ==>
                cache == (if Find(old(cache), symbol.start).Some? then old(cache)
                          else old(cache) + [Entry(symbol.start, FunctionName(symbol))])
    {
      var startAddr := symbol.start;
      if startAddr == INVALID_ADDRESS { return None; }
      var existing := Find(cache, startAddr);
      if existing.Some? { return existing; }
      var name := symbol.name;
      if name.None? || name.value == "" { name := Some("func_unknown"); }
      var funcName := if symbol.displayName.Some? then symbol.displayName.value else name.value;
      FindAppended(cache, Entry(startAddr, funcName), startAddr);
      cache := cache + [Entry(startAddr, funcName)];
      return Some(Entry(startAddr, funcName));
    }

    method QueryLLDBAbsolute(addr: nat, contain: bool) returns (r: Option<Entry>)
      modifies this`cache
      ensures cache == AfterQuery(oracle, old(cache), addr, contain)
      ensures r == QueryResult(oracle, cache, addr, contain)
    {
      var resolved := oracle(addr);
      if resolved.None? { return None; }
      var symbol := resolved.value;
      var symStart := symbol.start;
      if !contain && symStart != addr { return None; }
      if symbol.kind == Code || symbol.kind == Resolver {
        var funcSym := RegisterFunction(symbol);
        if funcSym.Some? { return funcSym; }
      }
      return None;
    }

    method FindAddr(addr: nat, hit: bool) returns (r: Lookup)
      modifies this`cache
      ensures cache == After(oracle, old(cache), Call.FindAddr(addr, hit))
      ensures r == LookupResult(hit, QueryResult(oracle, cache, addr, false), addr, size)
    {
      if hit { return CachedEntry; }
      var sym := QueryLLDBAbsolute(addr, false);
      if sym.Some? { return MapEntry(sym.value, addr, size); }
      return NoEntry;
    }

    method FindContainer(addr: nat, hit: bool) returns (r: Lookup)
      modifies this`cache
      ensures cache == After(oracle, old(cache), Call.FindContainer(addr, hit))
      ensures r == LookupResult(hit, QueryResult(oracle, cache, addr, true), addr, size)
    {
      if hit { return CachedEntry; }
      var sym := QueryLLDBAbsolute(addr, true);
      if sym.Some? { return MapEntry(sym.value, addr, size); }
      return NoEntry;
    }

    method FindFunction(addr: nat) returns (fd: Option<Entry>)
      modifies this`cache
      ensures cache == After(oracle, old(cache), Call.FindFunction(addr))
      ensures fd == Answer(oracle, old(cache), addr)
    {
      fd := Find(cache, addr);
      if fd.Some? { return fd; }
      var sym := QueryLLDBAbsolute(addr, false);
      if sym.Some? {
        fd := Find(cache, addr);
      }
    }

    method ClearAll()
      modifies this`cache
      ensures cache == After(oracle, old(cache), Call.Clear)
    {
      cache := [];
    }
  }

  lemma {:induction false} FindAppended(cache: seq<Entry>, e: Entry, key: nat)
    ensures Find(cache + [e], key) ==
            if Find(cache, key).Some? then Find(cache, key) else if e.key == key then Some(e) else None
    decreases |cache|
  {
    if cache == [] {
      assert ([] + [e])[1..] == [];
    } else {
      assert (cache + [e])[1..] == cache[1..] + [e];
      FindAppended(cache[1..], e, key);
    }
  }

  /* ---------- what is registered and answered, by the fields of the symbol ---------- */

  /** The symbol may become a function: code or resolver, loaded. */
  predicate Registrable(symbol: Symbol) {
    (symbol.kind == Code || symbol.kind == Resolver) && symbol.start != 0xFFFF_FFFF_FFFF_FFFF
  }

  predicate Unregistered(cache: seq<Entry>, key: nat) {
    forall i :: 0 <= i < |cache| ==> cache[i].key != key
  }

  /** The display name, or the name, or "func_unknown" for a symbol without either. */
  predicate NamedAfter(name: string, symbol: Symbol) {
    && (symbol.displayName.Some? ==> name == symbol.displayName.value)
    && (symbol.displayName.None? && symbol.name.Some? && symbol.name.value != "" ==> name == symbol.name.value)
    && (symbol.displayName.None? && (symbol.name.None? || symbol.name.value == "") ==> name == "func_unknown")
  }

  lemma FindAgrees(cache: seq<Entry>, key: nat)
    ensures Find(cache, key).None? <==> Unregistered(cache, key)
  {
    if Find(cache, key).Some? {
      var e := Find(cache, key).value;
      var i :| 0 <= i < |cache| && cache[i] == e;
      assert cache[i].key == key;
    } else {
      forall i | 0 <= i < |cache| ensures cache[i].key != key {
        assert cache[i] in cache;
      }
    }
  }

  /** A lookup adds the function of the symbol it finds, at the start and under the name
      of that symbol, if the start is not registered; otherwise it adds nothing.  Only
      findContainer accepts a symbol that starts elsewhere. */
  lemma LookupRegisters(oracle: Oracle, cache: seq<Entry>, addr: nat, contain: bool)
    ensures var call := if contain then FindContainer(addr, false) else FindAddr(addr, false);
            var cache' := After(oracle, cache, call);
            if (oracle(addr).Some? && Registrable(oracle(addr).value)
                && (contain || oracle(addr).value.start == addr) && Unregistered(cache, oracle(addr).value.start))
            then |cache'| == |cache| + 1 && cache'[..|cache|] == cache
                 && cache'[|cache|].key == oracle(addr).value.start
                 && NamedAfter(cache'[|cache|].name, oracle(addr).value)
            else cache' == cache
  {
    if oracle(addr).Some? { FindAgrees(cache, oracle(addr).value.start); }
  }

  /** An address that is not registered is answered from the symbol found there, if that
      starts there. */
  lemma AnswerFromSymbol(oracle: Oracle, cache: seq<Entry>, addr: nat)
    requires Unregistered(cache, addr)
    ensures var answer := Answer(oracle, cache, addr);
            && (answer.Some? <==>
                oracle(addr).Some? && Registrable(oracle(addr).value) && oracle(addr).value.start == addr)
            && (answer.Some? ==> answer.value.key == addr && NamedAfter(answer.value.name, oracle(addr).value))
  {
    FindAgrees(cache, addr);
    if oracle(addr).Some? {
      FindAppended(cache, Entry(addr, FunctionName(oracle(addr).value)), addr);
    }
  }

  /** A registered address is answered with its entry, and nothing is looked up. */
  lemma AnswerFromCache(oracle: Oracle, cache: seq<Entry>, i: nat)
    requires i < |cache| && Distinct(cache)
    ensures Answer(oracle, cache, cache[i].key) == Some(cache[i])
    ensures After(oracle, cache, FindFunction(cache[i].key)) == cache
  {
    FindAgrees(cache, cache[i].key);
    assert cache[i] in cache;
  }

  /* ---------- every reachable cache ---------- */

  /** No address is registered twice. */
  predicate Distinct(cache: seq<Entry>) {
    forall i, j :: 0 <= i < j < |cache| ==> cache[i].key != cache[j].key
  }

  /** The symbol found at `a` is the origin of the entry. */
  predicate ComesFrom(oracle: Oracle, e: Entry, a: nat) {
    oracle(a).Some? && IsFunction(oracle(a).value) &&
    e == Entry(oracle(a).value.start, FunctionName(oracle(a).value))
  }

  /** Every entry is the start of a loaded code or resolver symbol, under its name. */
  ghost predicate AllFunctions(oracle: Oracle, cache: seq<Entry>) {
    forall e :: e in cache ==> exists a: nat :: ComesFrom(oracle, e, a)
  }

  lemma QueryKeepsInvariant(oracle: Oracle, cache: seq<Entry>, addr: nat, contain: bool)
    requires Distinct(cache) && AllFunctions(oracle, cache)
    ensures Distinct(AfterQuery(oracle, cache, addr, contain))
    ensures AllFunctions(oracle, AfterQuery(oracle, cache, addr, contain))
  {
    var cache' := AfterQuery(oracle, cache, addr, contain);
    if cache' != cache {
      var e := cache'[|cache|];
      assert ComesFrom(oracle, e, addr);
      assert cache' == cache + [e];
    }
  }

  /** Safety over every run: distinct keys, each with an origin. */
  lemma {:induction false} ReachableInvariant(oracle: Oracle, history: seq<Call>)
    ensures Distinct(Reached(oracle, history)) && AllFunctions(oracle, Reached(oracle, history))
    decreases |history|
  {
    if history == [] {
    } else {
      var before := Reached(oracle, history[..|history| - 1]);
      ReachableInvariant(oracle, history[..|history| - 1]);
      var call := history[|history| - 1];
      if call != Clear {
        QueryKeepsInvariant(oracle, before, call.addr, call.FindContainer?);
      }
    }
  }

  /** Between clears nothing is removed, renamed or reordered, however many calls
      there are. */
  lemma {:induction false} CallsOnlyAppend(oracle: Oracle, before: seq<Call>, calls: seq<Call>)
    requires Clear !in calls
    ensures Reached(oracle, before) <= Reached(oracle, before + calls)
    decreases |calls|
  {
    hide FunctionName;
    if calls == [] {
      assert before + calls == before;
    } else {
      var init, last := calls[..|calls| - 1], calls[|calls| - 1];
      assert last in calls && forall c :: c in init ==> c in calls;
      assert (before + calls)[..|before + calls| - 1] == before + init;
      CallsOnlyAppend(oracle, before, init);
    }
  }

  /* ---------- the entry a lookup returns ---------- */

  /** A lookup that goes to the symbol tables returns an entry exactly when a function is
      registered and the address is among its first `size` bytes, counted modulo 2^32:
      findContainer registers the function around any address, and still returns
      nothing further inside it. */
  lemma LookupExactly(oracle: Oracle, cache: seq<Entry>, addr: nat, contain: bool, size: nat)
    ensures var r := LookupResult(false, QueryResult(oracle, AfterQuery(oracle, cache, addr, contain), addr, contain),
                                  addr, size);
            (r != NoEntry <==>
               && oracle(addr).Some? && IsFunction(oracle(addr).value)
               && var s := oracle(addr).value.start;
                  s <= addr && (contain || s == addr) && Int4(addr - s) < size)
            && (r != NoEntry ==> r.MapEntryOf? && r.symbol.key == oracle(addr).value.start)
  {
    if oracle(addr).Some? && IsFunction(oracle(addr).value) {
      var symbol := oracle(addr).value;
      FindAppended(cache, Entry(symbol.start, FunctionName(symbol)), symbol.start);
    }
  }

  /* ---------- does the history matter? ---------- */

  /** The symbol found anywhere is also found, as a function of the same name, at its
      own start. */
  ghost predicate SelfConsistent(oracle: Oracle) {
    forall a: nat :: oracle(a).Some? && IsFunction(oracle(a).value) ==> StartResolves(oracle, a)
  }

  predicate StartResolves(oracle: Oracle, a: nat)
    requires oracle(a).Some?
  {
    var s := oracle(a).value.start;
    ComesFrom(oracle, Entry(s, FunctionName(oracle(a).value)), s)
  }

  /** On an empty cache the answer comes from the symbol found at the address itself. */
  lemma FreshAnswer(oracle: Oracle, addr: nat)
    ensures Answer(oracle, [], addr) ==
            if oracle(addr).Some? && IsFunction(oracle(addr).value) && oracle(addr).value.start == addr
            then Some(Entry(addr, FunctionName(oracle(addr).value))) else None
  {}

  lemma AnswerInCache(oracle: Oracle, cache: seq<Entry>, addr: nat)
    ensures Answer(oracle, cache, addr) ==
            if Find(cache, addr).Some? then Find(cache, addr) else Answer(oracle, [], addr)
  {
    if Find(cache, addr).None? && After(oracle, cache, FindFunction(addr)) != cache {
      FindAppended(cache, Entry(addr, FunctionName(oracle(addr).value)), addr);
    }
  }

  lemma ConsistentAnswers(oracle: Oracle, history: seq<Call>, addr: nat)
    requires SelfConsistent(oracle)
    ensures Answer(oracle, Reached(oracle, history), addr) == Answer(oracle, [], addr)
  {
    var cache := Reached(oracle, history);
    ReachableInvariant(oracle, history);
    AnswerInCache(oracle, cache, addr);
    FreshAnswer(oracle, addr);
    if Find(cache, addr).Some? {
      var e := Find(cache, addr).value;
      var a: nat :| ComesFrom(oracle, e, a);
      assert StartResolves(oracle, a);
    }
  }

  /** A symbol whose start resolves to something else makes findFunction depend on
      whether findContainer met it before. */
  lemma InconsistencyShows(oracle: Oracle, a: nat)
    requires oracle(a).Some? && IsFunction(oracle(a).value) && !StartResolves(oracle, a)
    ensures var s := oracle(a).value.start;
            Answer(oracle, Reached(oracle, [FindContainer(a, false)]), s) != Answer(oracle, [], s)
  {
    var s := oracle(a).value.start;
    var h := [FindContainer(a, false)];
    assert h[..0] == [];
    var e := Entry(s, FunctionName(oracle(a).value));
    assert Reached(oracle, h) == [] + [e];
    AnswerInCache(oracle, [e], s);
    FreshAnswer(oracle, s);
  }

  /** findFunction answers the same after every history as on an empty cache if and
      only if the symbol tables are consistent at symbol starts. */
  lemma HistoryIndependence(oracle: Oracle)
    ensures (forall history: seq<Call>, addr: nat ::
               Answer(oracle, Reached(oracle, history), addr) == Answer(oracle, [], addr))
            <==> SelfConsistent(oracle)
  {
    if SelfConsistent(oracle) {
      forall history: seq<Call>, addr: nat
        ensures Answer(oracle, Reached(oracle, history), addr) == Answer(oracle, [], addr)
      {
        ConsistentAnswers(oracle, history, addr);
      }
    } else {
      var a: nat :| oracle(a).Some? && IsFunction(oracle(a).value) && !StartResolves(oracle, a);
      InconsistencyShows(oracle, a);
    }
  }

  /* ---------- which addresses have a function ---------- */

  /** Some code or resolver symbol is loaded with its start at `addr`. */
  ghost predicate LoadStart(oracle: Oracle, addr: nat) {
    exists a: nat :: StartsAt(oracle, a, addr)
  }

  predicate StartsAt(oracle: Oracle, a: nat, addr: nat) {
    oracle(a).Some? && IsFunction(oracle(a).value) && oracle(a).value.start == addr
  }

  /** At every load start the symbol found starts there; names do not matter. */
  ghost predicate StartsFound(oracle: Oracle) {
    forall a: nat, addr: nat :: StartsAt(oracle, a, addr) ==> StartsAt(oracle, addr, addr)
  }

  lemma ConsistentStartsFound(oracle: Oracle)
    requires SelfConsistent(oracle)
    ensures StartsFound(oracle)
  {
    forall a: nat, addr: nat | StartsAt(oracle, a, addr) ensures StartsAt(oracle, addr, addr) {
      assert StartResolves(oracle, a);
    }
  }

  /** An answer always names a load start. */
  lemma AnswerIsStart(oracle: Oracle, history: seq<Call>, addr: nat)
    requires Answer(oracle, Reached(oracle, history), addr).Some?
    ensures LoadStart(oracle, addr)
  {
    var cache := Reached(oracle, history);
    ReachableInvariant(oracle, history);
    AnswerInCache(oracle, cache, addr);
    FreshAnswer(oracle, addr);
    if Find(cache, addr).Some? {
      var a: nat :| ComesFrom(oracle, Find(cache, addr).value, a);
      assert StartsAt(oracle, a, addr);
    } else {
      assert StartsAt(oracle, addr, addr);
    }
  }

  lemma StartIsAnswered(oracle: Oracle, history: seq<Call>, addr: nat)
    requires StartsFound(oracle) && LoadStart(oracle, addr)
    ensures Answer(oracle, Reached(oracle, history), addr).Some?
  {
    var a: nat :| StartsAt(oracle, a, addr);
    AnswerInCache(oracle, Reached(oracle, history), addr);
    FreshAnswer(oracle, addr);
  }

  /** findFunction is non-null at `addr` exactly if that is a load start. */
  ghost predicate AnsweredRightly(oracle: Oracle, history: seq<Call>, addr: nat) {
    Answer(oracle, Reached(oracle, history), addr).Some? <==> LoadStart(oracle, addr)
  }

  /** On consistent symbol tables findFunction is non-null, after every history, exactly
      for the load start of a code or resolver symbol. */
  lemma FunctionsAreLoadStarts(oracle: Oracle, history: seq<Call>, addr: nat)
    requires SelfConsistent(oracle)
    ensures AnsweredRightly(oracle, history, addr)
  {
    ConsistentStartsFound(oracle);
    if LoadStart(oracle, addr) {
      StartIsAnswered(oracle, history, addr);
    } else if Answer(oracle, Reached(oracle, history), addr).Some? {
      AnswerIsStart(oracle, history, addr);
    }
  }

  /** The same on any symbol tables holds if and only if every load start is found at
      its own address. */
  lemma LoadStartsExactly(oracle: Oracle)
    ensures (forall history: seq<Call>, addr: nat :: AnsweredRightly(oracle, history, addr))
            <==> StartsFound(oracle)
  {
    if StartsFound(oracle) {
      forall history: seq<Call>, addr: nat ensures AnsweredRightly(oracle, history, addr) {
        if LoadStart(oracle, addr) {
          StartIsAnswered(oracle, history, addr);
        } else if Answer(oracle, Reached(oracle, history), addr).Some? {
          AnswerIsStart(oracle, history, addr);
        }
      }
    } else {
      var a: nat, addr: nat :| StartsAt(oracle, a, addr) && !StartsAt(oracle, addr, addr);
      FreshAnswer(oracle, addr);
      assert !AnsweredRightly(oracle, [], addr);
    }
  }
}
