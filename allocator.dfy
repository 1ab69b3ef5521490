/**
 * The next free suffix for a prefix (app.py, carregar_ultimo_idx_por_prefixo,
 * proximo_idx_para_prefixo and garantir_id_definitivo_prefixado). The record
 * table is the sequence of its `ID` cells as text; the memoised
 * "last index per prefix" map is a field of the allocator.
 */
module Allocator {
  import opened Wrappers
  import opened Codec
  import opened Prefix

  datatype AllocError = PrefixExhausted(prefix: string)

  /** extrair_prefixo_e_idx of each table ID, in table order. */
  function ParseAll(ids: seq<string>): (ps: seq<Option<ParsedId>>)
    ensures |ps| == |ids|
  {
    if ids == [] then [] else ParseAll(ids[..|ids| - 1]) + [ParseId(ids[|ids| - 1])]
  }

  lemma {:induction false} ParseAllAt(ids: seq<string>, j: int)
    requires 0 <= j < |ids|
    ensures ParseAll(ids)[j] == ParseId(ids[j])
  {
    if j < |ids| - 1 {
      var init := ids[..|ids| - 1];
      ParseAllAt(init, j);
      assert init[j] == ids[j];
    }
  }

  /** Some ID of the table parses to this prefix and index. */
  ghost predicate Uses(ids: seq<string>, prefix: string, idx: int) {
    Some(ParsedId(prefix, idx)) in ParseAll(ids)
  }

  /** The loop body of the table scan applied to parse results, one at a time. */
  function Fold(ps: seq<Option<ParsedId>>): (m: map<string, int>)
    requires forall j | 0 <= j < |ps| :: ps[j].Some? ==> ValidPrefix(ps[j].value.prefix) && 0 <= ps[j].value.index < Capacity
    ensures forall k :: k in m ==> ValidPrefix(k) && 0 <= m[k] < Capacity
  {
    if ps == [] then map[]
    else
      Absorb(Fold(ps[..|ps| - 1]), ps[|ps| - 1])
  }

  /** One iteration of the scan: a parsed ID raises its prefix's entry, a malformed one is skipped. */
  function Absorb(m: map<string, int>, parsed: Option<ParsedId>): map<string, int> {
    match parsed
    case None => m
    case Some(p) => if p.prefix !in m || p.index > m[p.prefix] then m[p.prefix := p.index] else m
  }

  /** Fold keeps exactly the prefixes that occur, each with its largest index. */
  lemma {:induction false} FoldIsMax(ps: seq<Option<ParsedId>>, prefix: string)
    requires forall j | 0 <= j < |ps| :: ps[j].Some? ==> ValidPrefix(ps[j].value.prefix) && 0 <= ps[j].value.index < Capacity
    ensures prefix in Fold(ps) <==> exists i :: Some(ParsedId(prefix, i)) in ps
    ensures prefix in Fold(ps) ==>
      && Some(ParsedId(prefix, Fold(ps)[prefix])) in ps
      && forall i :: Some(ParsedId(prefix, i)) in ps ==> i <= Fold(ps)[prefix]
  {
    if ps != [] {
      var init := ps[..|ps| - 1];
      assert ps == init + [ps[|ps| - 1]];
      FoldIsMax(init, prefix);
    }
  }

  lemma ParseAllValid(ids: seq<string>)
    ensures forall j | 0 <= j < |ParseAll(ids)| :: ParseAll(ids)[j].Some? ==>
      ValidPrefix(ParseAll(ids)[j].value.prefix) && 0 <= ParseAll(ids)[j].value.index < Capacity
  {
    forall j | 0 <= j < |ParseAll(ids)|
      ensures ParseAll(ids)[j].Some? ==>
        ValidPrefix(ParseAll(ids)[j].value.prefix) && 0 <= ParseAll(ids)[j].value.index < Capacity
    {
      ParseAllAt(ids, j);
    }
  }

  /** The map the table scan builds, folding in one ID at a time, in table order. */
  function LastIndexMap(ids: seq<string>): (m: map<string, int>)
    ensures forall k :: k in m ==> ValidPrefix(k) && 0 <= m[k] < Capacity
  {
    ParseAllValid(ids);
    Fold(ParseAll(ids))
  }

  /**
   * The scan keeps exactly the prefixes of the IDs that parse, each with the
   * largest index any of its IDs carries; malformed IDs play no part.
   */
  lemma LastIndexMapIsMax(ids: seq<string>, prefix: string)
    ensures prefix in LastIndexMap(ids) <==> exists i :: Uses(ids, prefix, i)
    ensures prefix in LastIndexMap(ids) ==>
      && Uses(ids, prefix, LastIndexMap(ids)[prefix])
      && forall i :: Uses(ids, prefix, i) ==> i <= LastIndexMap(ids)[prefix]
  {
    var ps := ParseAll(ids);
    ParseAllValid(ids);
    FoldIsMax(ps, prefix);
    if exists i :: Uses(ids, prefix, i) {
      var i :| Uses(ids, prefix, i);
      assert Some(ParsedId(prefix, i)) in ps;
    }
    if prefix in LastIndexMap(ids) {
      assert Uses(ids, prefix, LastIndexMap(ids)[prefix]);
    }
  }

  /** Scanning one more ID absorbs its parse into the map built so far. */
  lemma LastIndexMapSnoc(ids: seq<string>, i: int)
    requires 0 <= i < |ids|
    ensures LastIndexMap(ids[..i + 1]) == Absorb(LastIndexMap(ids[..i]), ParseId(ids[i]))
  {
    assert ids[..i + 1][..i] == ids[..i];
    ParseAllValid(ids[..i + 1]);
    assert ParseAll(ids[..i + 1])[..i] == ParseAll(ids[..i]);
  }

  /** carregar_ultimo_idx_por_prefixo's loop over the table's IDs. */
  method ScanLastIndex(ids: seq<string>) returns (ultimo: map<string, int>)
    ensures ultimo == LastIndexMap(ids)
  {
    ultimo := map[];
    for i := 0 to |ids|
      invariant ultimo == LastIndexMap(ids[..i])
    {
      LastIndexMapSnoc(ids, i);
      var parsed := ParseId(ids[i]);
      if parsed.Some? {
        var p := parsed.value;
        if p.prefix !in ultimo || p.index > ultimo[p.prefix] {
          ultimo := ultimo[p.prefix := p.index];
        }
      }
    }
    assert ids[..|ids|] == ids;
  }

  /**
   * The group `^prefix(\d{2}[A-Z])$` captures with re.match: the prefix
   * literally, then `NNL`; Python's `$` also matches before one final newline.
   */
  function MemSuffix(prefix: string, id: string): (r: Option<string>)
    ensures r.Some? ==> IsSuffix(r.value) && (id == prefix + r.value || id == prefix + r.value + "\n")
  {
    var n := |prefix|;
    if |id| >= n + 3 && id[..n] == prefix && IsSuffix(id[n..n + 3])
       && (|id| == n + 3 || (|id| == n + 4 && id[n + 3] == '\n'))
    then
      assert id == id[..n] + id[n..n + 3] + id[n + 3..];
      Some(id[n..n + 3])
    else
      None
  }

  /** The index one ID of df_mem contributes: sufixo_to_idx of the captured group, none when it raises. */
  function MemIndex(prefix: string, id: string): (r: Option<int>)
    ensures r.Some? ==> 0 <= r.value < Capacity
  {
    match MemSuffix(prefix, id)
    case None => None
    case Some(s) =>
      match SuffixToIdx(s)
      case Success(idx) => Some(idx)
      case Failure(_) => None
  }

  /** The df_mem scan recognises exactly the IDs that spell this prefix and an index. */
  lemma MemIndexMeaning(prefix: string, id: string, idx: int)
    requires 0 <= idx < Capacity
    ensures MemIndex(prefix, id) == Some(idx) <==>
      id == prefix + IdxToSuffix(idx).value || id == prefix + IdxToSuffix(idx).value + "\n"
  {
    var s := IdxToSuffix(idx).value;
    var n := |prefix|;
    if id == prefix + s || id == prefix + s + "\n" {
      assert id[..n] == prefix && id[n..n + 3] == s;
    }
    if MemIndex(prefix, id) == Some(idx) {
      var t := MemSuffix(prefix, id).value;
      SuffixToIdxInverse(t);
    }
  }

  /** `base` raised to every index df_mem holds for this prefix. */
  function MemMax(prefix: string, mem: seq<string>, base: int): (b: int)
    ensures b >= base
  {
    if mem == [] then base
    else
      var b := MemMax(prefix, mem[..|mem| - 1], base);
      match MemIndex(prefix, mem[|mem| - 1])
      case Some(idx) => if idx > b then idx else b
      case None => b
  }

  /** The running maximum bounds every index in df_mem and is either the start value or one of them. */
  lemma {:induction false} MemMaxIsMax(prefix: string, mem: seq<string>, base: int)
    ensures forall j :: 0 <= j < |mem| && MemIndex(prefix, mem[j]).Some? ==>
      MemIndex(prefix, mem[j]).value <= MemMax(prefix, mem, base)
    ensures MemMax(prefix, mem, base) == base ||
      exists j :: 0 <= j < |mem| && MemIndex(prefix, mem[j]) == Some(MemMax(prefix, mem, base))
  {
    if mem != [] {
      var init := mem[..|mem| - 1];
      MemMaxIsMax(prefix, init, base);
      forall j | 0 <= j < |init|
        ensures mem[j] == init[j]
      {
      }
      var b := MemMax(prefix, init, base);
      if b != base && MemMax(prefix, mem, base) == b {
        var j :| 0 <= j < |init| && MemIndex(prefix, init[j]) == Some(b);
        assert mem[j] == init[j];
      }
    }
  }

  /** The df_mem loop shared by proximo_idx_para_prefixo and garantir_id_definitivo_prefixado. */
  method ScanMem(prefix: string, mem: seq<string>, base: int) returns (b: int)
    ensures b == MemMax(prefix, mem, base)
  {
    b := base;
    for i := 0 to |mem|
      invariant b == MemMax(prefix, mem[..i], base)
    {
      assert mem[..i + 1][..i] == mem[..i];
      var group := MemSuffix(prefix, mem[i]);
      if group.Some? {
        var idx := SuffixToIdx(group.value);
        if idx.Success? && idx.value > b {
          b := idx.value;
        }
      }
    }
    assert mem[..|mem|] == mem;
  }

  /** `ultimo.get(prefixo, -1)` */
  function LastOr(ultimo: map<string, int>, prefix: string): int {
    if prefix in ultimo then ultimo[prefix] else -1
  }

  /** The index proximo_idx_para_prefixo computes from a last-index map and df_mem. */
  function NextIndexFrom(prefix: string, mem: seq<string>, ultimo: map<string, int>): (r: Result<int, AllocError>)
    ensures r.Success? ==> LastOr(ultimo, prefix) < r.value < Capacity
    ensures r.Failure? ==> r.error == PrefixExhausted(prefix)
  {
    var next := MemMax(prefix, mem, LastOr(ultimo, prefix)) + 1;
    if next >= Capacity then Failure(PrefixExhausted(prefix)) else Success(next)
  }

  /**
   * Max plus one over a freshly scanned table and df_mem: the index is above
   * every index of the prefix in either, and the one below it is in use
   * (or it is 0). It fails exactly when 99Z is in use.
   */
  lemma ReservedIndexIsMaxPlusOne(prefix: string, mem: seq<string>, table: seq<string>)
    ensures var next := MemMax(prefix, mem, LastOr(LastIndexMap(table), prefix)) + 1;
      && 0 <= next <= Capacity
      && (forall i :: Uses(table, prefix, i) ==> i < next)
      && (forall j :: 0 <= j < |mem| && MemIndex(prefix, mem[j]).Some? ==> MemIndex(prefix, mem[j]).value < next)
      && (next == 0 || Uses(table, prefix, next - 1) ||
          exists j :: 0 <= j < |mem| && MemIndex(prefix, mem[j]) == Some(next - 1))
      && (NextIndexFrom(prefix, mem, LastIndexMap(table)).Failure? <==> next == Capacity)
  {
    var m := LastIndexMap(table);
    LastIndexMapIsMax(table, prefix);
    MemMaxIsMax(prefix, mem, LastOr(m, prefix));
    if prefix !in m {
      forall i | Uses(table, prefix, i) ensures false {
      }
    }
  }

  /**
   * The reserved ID is new: no entry of df_mem is that ID, and, for a
   * four-character `[A-Z0-9]` prefix, no ID of the table normalises to it.
   */
  lemma ReservedIdIsFresh(prefix: string, mem: seq<string>, table: seq<string>, n: int)
    requires NextIndexFrom(prefix, mem, LastIndexMap(table)) == Success(n)
    ensures 0 <= n < Capacity
    ensures forall j :: 0 <= j < |mem| ==> mem[j] != prefix + IdxToSuffix(n).value
    ensures ValidPrefix(prefix) ==>
      forall j :: 0 <= j < |table| ==> ParseId(table[j]) != ParseId(prefix + IdxToSuffix(n).value)
  {
    ReservedIndexIsMaxPlusOne(prefix, mem, table);
    var id := prefix + IdxToSuffix(n).value;
    forall j | 0 <= j < |mem|
      ensures mem[j] != id
    {
      MemIndexMeaning(prefix, mem[j], n);
    }
    if ValidPrefix(prefix) {
      ParseBuiltId(prefix, n);
      forall j | 0 <= j < |table|
        ensures ParseId(table[j]) != Some(ParsedId(prefix, n))
      {
        ParseAllAt(table, j);
        var pj := ParseAll(table)[j];
        if pj.Some? && pj.value.prefix == prefix {
          assert Uses(table, prefix, pj.value.index);
        }
      }
    }
  }

  /**
   * The cache stays reconstructible: the claim written back for a valid
   * prefix is what a rescan of the table with the new ID appended would give.
   */
  lemma ClaimMatchesRescan(prefix: string, mem: seq<string>, table: seq<string>, n: int)
    requires ValidPrefix(prefix)
    requires NextIndexFrom(prefix, mem, LastIndexMap(table)) == Success(n)
    ensures LastIndexMap(table + [prefix + IdxToSuffix(n).value]) == LastIndexMap(table)[prefix := n]
  {
    var id := prefix + IdxToSuffix(n).value;
    var ids := table + [id];
    assert ids[..|ids| - 1] == table && ids[|ids| - 1] == id;
    ReservedIndexIsMaxPlusOne(prefix, mem, table);
    ParseBuiltId(prefix, n);
    LastIndexMapIsMax(table, prefix);
  }

  /** The session's allocator state: the table it scans and the memoised map. */
  class SequenceAllocator {
    /** The `ID` column of the record table, as text. */
    var table: seq<string>
    /** `st.session_state["ultimo_idx_por_prefixo"]`, None while absent. */
    var cache: Option<map<string, int>>

    constructor (table: seq<string>)
      ensures this.table == table && cache == None
    {
      this.table := table;
      cache := None;
    }

    /** carregar_ultimo_idx_por_prefixo: the memoised map, or a fresh scan that is then memoised. */
    method LoadLastIndex() returns (ultimo: map<string, int>)
      modifies this`cache
      ensures ultimo == if old(cache).Some? then old(cache).value else LastIndexMap(table)
      ensures cache == Some(ultimo)
    {
      if cache.Some? {
        return cache.value;
      }
      ultimo := ScanLastIndex(table);
      cache := Some(ultimo);
    }

    /** proximo_idx_para_prefixo: one past the memoised last index and df_mem's indices. */
    method NextIndex(prefix: string, mem: seq<string>) returns (r: Result<int, AllocError>)
      modifies this`cache
      ensures cache == Some(if old(cache).Some? then old(cache).value else LastIndexMap(table))
      ensures r == NextIndexFrom(prefix, mem, cache.value)
    {
      var ultimo := LoadLastIndex();
      var base := LastOr(ultimo, prefix);
      base := ScanMem(prefix, mem, base);
      var next := base + 1;
      if next >= Capacity {
        return Failure(PrefixExhausted(prefix));
      }
      return Success(next);
    }

    /**
     * garantir_id_definitivo_prefixado: drops the memoised map, rescans the
     * table, takes one past the largest index of the prefix in the table and
     * in df_mem, writes that claim back into the map and returns the ID.
     */
    method ReserveId(dept: string, docType: string,
                     deptCodes: map<string, string>, typeCodes: map<string, string>,
                     mem: seq<string>) returns (r: Result<string, AllocError>)
      modifies this`cache
      ensures var prefix := BuildPrefix(dept, docType, deptCodes, typeCodes);
        var built := LastIndexMap(table);
        match NextIndexFrom(prefix, mem, built)
        case Failure(e) => r == Failure(e) && cache == Some(built)
        case Success(n) => r == Success(prefix + IdxToSuffix(n).value) && cache == Some(built[prefix := n])
    {
      cache := None;
      var ultimo := LoadLastIndex();
      var prefix := BuildPrefix(dept, docType, deptCodes, typeCodes);
      var base := LastOr(ultimo, prefix);
      base := ScanMem(prefix, mem, base);
      var next := base + 1;
      assert NextIndexFrom(prefix, mem, ultimo) == if next >= Capacity then Failure(PrefixExhausted(prefix)) else Success(next);
      if next >= Capacity {
        return Failure(PrefixExhausted(prefix));
      }
      ultimo := ultimo[prefix := next];
      cache := Some(ultimo);
      r := Success(prefix + IdxToSuffix(next).value);
    }
  }

  /**
   * Each reservation rescans the same table, so two reservations with nothing
   * saved in between hand out the same ID: the claim held in the map does not
   * survive the next reservation's rescan.
   */
  method ReserveTwiceOnSameTable(table: seq<string>, dept: string, docType: string,
                                 deptCodes: map<string, string>, typeCodes: map<string, string>,
                                 mem: seq<string>)
    returns (first: Result<string, AllocError>, second: Result<string, AllocError>)
    ensures first == second
  {
    var allocator := new SequenceAllocator(table);
    first := allocator.ReserveId(dept, docType, deptCodes, typeCodes, mem);
    second := allocator.ReserveId(dept, docType, deptCodes, typeCodes, mem);
  }

  /**
   * After a reservation the claim stays memoised, so the next-ID preview,
   * which reads only the memoised map, shows the index right after the one
   * just handed out, or fails when that was 99Z.
   */
  method ReserveThenPreview(table: seq<string>, dept: string, docType: string,
                            deptCodes: map<string, string>, typeCodes: map<string, string>,
                            mem: seq<string>)
    returns (reserved: Result<string, AllocError>, preview: Result<int, AllocError>)
    ensures reserved.Success? && preview.Success? ==>
      1 <= preview.value < Capacity &&
      reserved.value == BuildPrefix(dept, docType, deptCodes, typeCodes) + IdxToSuffix(preview.value - 1).value
    ensures reserved.Success? && preview.Failure? ==>
      reserved.value == BuildPrefix(dept, docType, deptCodes, typeCodes) + IdxToSuffix(Capacity - 1).value
  {
    var allocator := new SequenceAllocator(table);
    reserved := allocator.ReserveId(dept, docType, deptCodes, typeCodes, mem);
    var prefix := BuildPrefix(dept, docType, deptCodes, typeCodes);
    preview := allocator.NextIndex(prefix, []);
  }
}
