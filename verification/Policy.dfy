/** Bucket policies of the online experiment plugin: src/online_hash.cc. */
module Policy {
  import opened Options
  import opened Bytes
  import opened Text

  /** ConfIdInfo: one configuration id and the inclusive range of buckets it serves. */
  datatype Slot = Slot(confId: string, start: Word, end: Word)

  datatype Policy = Policy(prefix: string, seed: Word, slots: seq<Slot>)

  type Table = map<string, Policy>

  /** A printed policy and the product it belongs to. */
  datatype Entry = Entry(product: string, policy: Policy)

  // ---------------------------------------------------------------- reading

  /** A number stored in a uint32 field. */
  function Number(s: string): Word {
    Atoi(s) % TWO_32
  }

  function SlotOf(field: string): Option<Slot> {
    var parts := Split(field, ",");
    if |parts| != 3 then None else Some(Slot(parts[0], Number(parts[1]), Number(parts[2])))
  }

  function AddSlot(slots: seq<Slot>, field: string): seq<Slot> {
    match SlotOf(field)
    case None => slots
    case Some(slot) => slots + [slot]
  }

  /** The slots given by the fields from the third one on; a field without exactly three parts is skipped. */
  function SlotsOf(fields: seq<string>, n: nat): seq<Slot>
    requires 2 <= n <= |fields|
  {
    if n == 2 then [] else AddSlot(SlotsOf(fields, n - 1), fields[n - 1])
  }

  function EntryOf(text: string): Option<Entry> {
    var pair := Split(text, "|");
    if |pair| != 2 then None
    else
      var fields := Split(pair[1], ":");
      if |fields| < 3 then None
      else Some(Entry(pair[0], Policy(fields[0], Number(fields[1]), SlotsOf(fields, |fields|))))
  }

  function Put(table: Table, e: Entry): Table {
    table[e.product := e.policy]
  }

  function AddText(table: Table, text: string): Table {
    match EntryOf(text)
    case None => table
    case Some(e) => Put(table, e)
  }

  /** The table after the first n product texts. */
  function Loaded(table: Table, texts: seq<string>, n: nat): Table
    requires n <= |texts|
  {
    if n == 0 then table else AddText(Loaded(table, texts, n - 1), texts[n - 1])
  }

  // ---------------------------------------------------------------- printing, as documented beside loadInternal

  function PrintSlot(s: Slot): string {
    Join([s.confId, Decimal(s.start), Decimal(s.end)], ',')
  }

  function PrintSlots(slots: seq<Slot>, n: nat): (r: seq<string>)
    requires n <= |slots|
    ensures |r| == n
  {
    if n == 0 then [] else PrintSlots(slots, n - 1) + [PrintSlot(slots[n - 1])]
  }

  function Fields(p: Policy): seq<string> {
    [p.prefix, Decimal(p.seed)] + PrintSlots(p.slots, |p.slots|)
  }

  function PrintEntry(e: Entry): string {
    Join([e.product, Join(Fields(e.policy), ':')], '|')
  }

  function PrintEntries(es: seq<Entry>, n: nat): (r: seq<string>)
    requires n <= |es|
    ensures |r| == n
  {
    if n == 0 then [] else PrintEntries(es, n - 1) + [PrintEntry(es[n - 1])]
  }

  function Print(es: seq<Entry>): string {
    Join(PrintEntries(es, |es|), ';')
  }

  /** The table that a list of entries stands for: a later entry of a product replaces an earlier one. */
  function Filled(table: Table, es: seq<Entry>, n: nat): Table
    requires n <= |es|
  {
    if n == 0 then table
    else
      var before := Filled(table, es, n - 1);
      if es[n - 1].policy.slots == [] then before else Put(before, es[n - 1])
  }

  /** Numbers atoi can represent, and text free of the separators of its own and the outer levels. */
  ghost predicate CleanSlot(s: Slot) {
    Free(s.confId, ",:|;") && s.start < 0x8000_0000 && s.end < 0x8000_0000
  }

  ghost predicate CleanSlots(slots: seq<Slot>) {
    forall k :: 0 <= k < |slots| ==> CleanSlot(slots[k])
  }

  ghost predicate CleanEntry(e: Entry) {
    && Free(e.product, "|;")
    && Free(e.policy.prefix, ":|;")
    && e.policy.seed < 0x8000_0000
    && CleanSlots(e.policy.slots)
  }

  ghost predicate CleanEntries(es: seq<Entry>) {
    forall k :: 0 <= k < |es| ==> CleanEntry(es[k])
  }

  // ---------------------------------------------------------------- separators stay out of printed text

  lemma FreeSub(s: string, few: string, many: string)
    requires Free(s, many) && forall c :: c in few ==> c in many
    ensures Free(s, few)
  {
  }

  lemma {:induction false} FreeDecimal(n: nat, seps: string)
    requires forall c :: c in seps ==> !IsDigit(c)
    ensures Free(Decimal(n), seps)
  {
  }

  lemma {:induction false} FreeJoin(ts: seq<string>, c: char, seps: string)
    requires AllFree(ts, seps) && c !in seps
    ensures Free(Join(ts, c), seps)
  {
    if |ts| > 1 {
      FreeJoin(ts[1..], c, seps);
    }
  }

  lemma SlotText(s: Slot)
    requires CleanSlot(s)
    ensures Free(PrintSlot(s), ":|;")
    ensures SlotOf(PrintSlot(s)) == Some(s)
  {
    hide Decimal, Atoi, Join, Split;
    var ts := [s.confId, Decimal(s.start), Decimal(s.end)];
    FreeDecimal(s.start, ",:|;");
    FreeDecimal(s.end, ",:|;");
    FreeJoin(ts, ',', ":|;");
    SplitOfJoin(ts, ',');
    AtoiOfDecimal(s.start);
    AtoiOfDecimal(s.end);
  }

  lemma {:induction false} PrintedSlot(slots: seq<Slot>, n: nat, k: nat)
    requires k < n <= |slots|
    ensures PrintSlots(slots, n)[k] == PrintSlot(slots[k])
  {
    if k < n - 1 {
      PrintedSlot(slots, n - 1, k);
    }
  }

  lemma {:induction false} PrintedEntry(es: seq<Entry>, n: nat, k: nat)
    requires k < n <= |es|
    ensures PrintEntries(es, n)[k] == PrintEntry(es[k])
  {
    if k < n - 1 {
      PrintedEntry(es, n - 1, k);
    }
  }

  lemma {:induction false} SlotsText(p: Policy, n: nat)
    requires CleanSlots(p.slots) && n <= |p.slots|
    ensures SlotsOf(Fields(p), n + 2) == p.slots[..n]
  {
    hide PrintSlot, SlotOf;
    if n > 0 {
      SlotsText(p, n - 1);
      assert CleanSlot(p.slots[n - 1]);
      SlotText(p.slots[n - 1]);
      PrintedSlot(p.slots, |p.slots|, n - 1);
      assert p.slots[..n] == p.slots[..n - 1] + [p.slots[n - 1]];
    }
  }

  lemma FieldsText(p: Policy)
    requires Free(p.prefix, ":|;") && CleanSlots(p.slots)
    ensures AllFree(Fields(p), ":|;")
  {
    hide PrintSlot, PrintSlots, CleanSlot, Free, Decimal;
    FreeDecimal(p.seed, ":|;");
    var fields := Fields(p);
    forall k | 0 <= k < |fields| ensures Free(fields[k], ":|;") {
      if k >= 2 {
        PrintedSlot(p.slots, |p.slots|, k - 2);
        SlotText(p.slots[k - 2]);
      }
    }
  }

  lemma AllFreeSub(ts: seq<string>, few: string, many: string)
    requires AllFree(ts, many) && forall c :: c in few ==> c in many
    ensures AllFree(ts, few)
  {
    hide Free;
    forall k | 0 <= k < |ts| ensures Free(ts[k], few) {
      FreeSub(ts[k], few, many);
    }
  }

  /** The fields after the bar, joined: free of the outer separators, and split back into themselves. */
  lemma BodyText(p: Policy)
    requires Free(p.prefix, ":|;") && CleanSlots(p.slots)
    ensures Free(Join(Fields(p), ':'), "|;")
    ensures Split(Join(Fields(p), ':'), ":") == Fields(p)
  {
    hide Fields, Free, Join, Split, AllFree;
    var fields := Fields(p);
    FieldsText(p);
    AllFreeSub(fields, ":", ":|;");
    AllFreeSub(fields, "|;", ":|;");
    FreeJoin(fields, ':', "|;");
    NoEmptyFields(p);
    SplitOfJoin(fields, ':');
  }

  lemma NoEmptyFields(p: Policy)
    ensures |Fields(p)| == 2 + |p.slots|
  {
  }

  /** A product text is split at the bar into the product and its fields. */
  lemma PairText(e: Entry)
    requires CleanEntry(e)
    ensures Split(PrintEntry(e), "|") == [e.product, Join(Fields(e.policy), ':')]
    ensures Free(PrintEntry(e), ";")
  {
    hide Fields, Join, Split, Free, CleanSlots;
    BodyText(e.policy);
    var pair := [e.product, Join(Fields(e.policy), ':')];
    FreeSub(pair[0], "|", "|;");
    FreeSub(pair[1], "|", "|;");
    FreeSub(pair[0], ";", "|;");
    FreeSub(pair[1], ";", "|;");
    SplitOfJoin(pair, '|');
    FreeJoin(pair, '|', ";");
  }

  /** A printed policy reads back as itself, unless it has no slot: then it is refused. */
  lemma EntryText(e: Entry)
    requires CleanEntry(e)
    ensures EntryOf(PrintEntry(e)) == if e.policy.slots == [] then None else Some(e)
  {
    hide Join, Split, Free, CleanSlots, SlotsOf, PrintSlots, Decimal, Atoi, PrintEntry;
    var p := e.policy;
    PairText(e);
    BodyText(p);
    SlotsText(p, |p.slots|);
    AtoiOfDecimal(p.seed);
    NoEmptyFields(p);
    assert p.slots[..|p.slots|] == p.slots;
  }

  lemma {:induction false} LoadedText(table: Table, es: seq<Entry>, n: nat)
    requires CleanEntries(es) && n <= |es|
    ensures Loaded(table, PrintEntries(es, |es|), n) == Filled(table, es, n)
  {
    hide PrintEntry, EntryOf, CleanEntry;
    if n > 0 {
      LoadedText(table, es, n - 1);
      EntryText(es[n - 1]);
      PrintedEntry(es, |es|, n - 1);
    }
  }

  lemma EmptyText(table: Table)
    ensures Split("", ";") == [""] && AddText(table, "") == table
  {
    assert FirstOf("", ";") == 0 == FirstOf("", "|");
  }

  /**
    Reading a printed list of policies, on top of whatever was loaded before, adds exactly its
    entries in order, so that the last entry of a product wins; entries without a slot are lost.
   */
  lemma {:induction false} ParsePrint(table: Table, es: seq<Entry>)
    requires CleanEntries(es)
    ensures var texts := Split(Print(es), ";"); Loaded(table, texts, |texts|) == Filled(table, es, |es|)
  {
    hide PrintEntries, PrintEntry, Split, Free, CleanEntry, AddText;
    var texts := PrintEntries(es, |es|);
    if es == [] {
      EmptyText(table);
      assert Loaded(table, [""], 1) == AddText(table, "");
    } else {
      forall k | 0 <= k < |texts| ensures Free(texts[k], ";") {
        PrintedEntry(es, |es|, k);
        PairText(es[k]);
      }
      SplitOfJoin(texts, ';');
      LoadedText(table, es, |es|);
    }
  }

  ghost predicate Serves(e: Entry, product: string) {
    e.product == product && e.policy.slots != []
  }

  /** The last entry of a product that has a slot is the one that stays. */
  lemma {:induction false} LastEntryWins(table: Table, es: seq<Entry>, i: nat, n: nat)
    requires i < n <= |es| && es[i].policy.slots != []
    requires forall j :: i < j < n ==> !Serves(es[j], es[i].product)
    ensures es[i].product in Filled(table, es, n)
    ensures Filled(table, es, n)[es[i].product] == es[i].policy
  {
    if i < n - 1 {
      LastEntryWins(table, es, i, n - 1);
      assert !Serves(es[n - 1], es[i].product);
    }
  }

  /** A product no entry serves keeps the policy it had, if it had one. */
  lemma {:induction false} OthersKeepTheirPolicy(table: Table, es: seq<Entry>, product: string, n: nat)
    requires n <= |es|
    requires forall j :: 0 <= j < n ==> !Serves(es[j], product)
    ensures product in Filled(table, es, n) <==> product in table
    ensures product in table ==> Filled(table, es, n)[product] == table[product]
  {
    if n > 0 {
      OthersKeepTheirPolicy(table, es, product, n - 1);
      assert !Serves(es[n - 1], product);
    }
  }

  predicate Triple(field: string) {
    |Split(field, ",")| == 3
  }

  /** A policy read from text has a slot exactly when some field after the seed has three parts. */
  lemma {:induction false} SlotsExist(fields: seq<string>, n: nat)
    requires 2 <= n <= |fields|
    ensures SlotsOf(fields, n) != [] <==> exists k :: 2 <= k < n && Triple(fields[k])
  {
    hide Split;
    if n > 2 {
      SlotsExist(fields, n - 1);
      if Triple(fields[n - 1]) {
        assert SlotsOf(fields, n) != [];
      }
    }
  }

  // ---------------------------------------------------------------- the printed form spelled out

  /** A policy without slots is printed as product|prefix:seed, and every slot adds :conf,start,end. */
  lemma {:induction false} PolicyText(product: string, prefix: string, seed: Word)
    ensures PrintEntry(Entry(product, Policy(prefix, seed, []))) == product + "|" + prefix + ":" + Decimal(seed)
  {
    hide Decimal;
    var body := prefix + ":" + Decimal(seed);
    assert Fields(Policy(prefix, seed, [])) == [prefix, Decimal(seed)];
    JoinSnoc([prefix], Decimal(seed), ':');
    JoinSnoc([product], body, '|');
    assert [prefix] + [Decimal(seed)] == [prefix, Decimal(seed)] && [product] + [body] == [product, body];
  }

  lemma {:induction false} SlotForm(slot: Slot)
    ensures PrintSlot(slot) == slot.confId + "," + Decimal(slot.start) + "," + Decimal(slot.end)
  {
    hide Decimal;
    var two := [slot.confId, Decimal(slot.start)];
    JoinSnoc([slot.confId], Decimal(slot.start), ',');
    JoinSnoc(two, Decimal(slot.end), ',');
    assert [slot.confId] + [Decimal(slot.start)] == two;
    assert two + [Decimal(slot.end)] == [slot.confId, Decimal(slot.start), Decimal(slot.end)];
  }

  lemma {:induction false} SamePrintedSlots(a: seq<Slot>, b: seq<Slot>, n: nat)
    requires n <= |a| && n <= |b| && a[..n] == b[..n]
    ensures PrintSlots(a, n) == PrintSlots(b, n)
  {
    hide PrintSlot;
    if n > 0 {
      assert a[..n - 1] == a[..n][..n - 1] == b[..n][..n - 1] == b[..n - 1];
      SamePrintedSlots(a, b, n - 1);
      assert a[n - 1] == a[..n][n - 1] == b[..n][n - 1] == b[n - 1];
    }
  }

  lemma {:induction false} EntryForm(product: string, p: Policy)
    ensures PrintEntry(Entry(product, p)) == product + "|" + Join(Fields(p), ':')
  {
    hide Fields;
    var body := Join(Fields(p), ':');
    JoinSnoc([product], body, '|');
    assert [product] + [body] == [product, body];
  }

  lemma FieldsGrow(p: Policy, slot: Slot)
    ensures Fields(p.(slots := p.slots + [slot])) == Fields(p) + [PrintSlot(slot)]
  {
    hide Decimal, PrintSlot;
    SamePrintedSlots(p.slots, p.slots + [slot], |p.slots|);
  }

  lemma {:induction false} SlotAddsText(product: string, p: Policy, slot: Slot)
    ensures PrintEntry(Entry(product, p.(slots := p.slots + [slot]))) ==
      PrintEntry(Entry(product, p)) + ":" + slot.confId + "," + Decimal(slot.start) + "," + Decimal(slot.end)
  {
    hide Decimal, PrintSlot, Fields, Join, PrintEntry;
    EntryForm(product, p);
    EntryForm(product, p.(slots := p.slots + [slot]));
    FieldsGrow(p, slot);
    SlotForm(slot);
    NoEmptyFields(p);
    JoinSnoc(Fields(p), PrintSlot(slot), ':');
  }

  lemma {:induction false} SamePrinted(a: seq<Entry>, b: seq<Entry>, n: nat)
    requires n <= |a| && n <= |b| && a[..n] == b[..n]
    ensures PrintEntries(a, n) == PrintEntries(b, n)
  {
    hide PrintEntry;
    if n > 0 {
      assert a[..n - 1] == a[..n][..n - 1] == b[..n][..n - 1] == b[..n - 1];
      SamePrinted(a, b, n - 1);
      assert a[n - 1] == a[..n][n - 1] == b[..n][n - 1] == b[n - 1];
    }
  }

  /** Every further policy stands behind a semicolon. */
  lemma {:induction false} EntryAddsText(es: seq<Entry>, e: Entry)
    ensures Print([e]) == PrintEntry(e)
    ensures es != [] ==> Print(es + [e]) == Print(es) + ";" + PrintEntry(e)
  {
    hide PrintEntry;
    assert PrintEntries([e], 1) == [PrintEntry(e)];
    SamePrinted(es, es + [e], |es|);
    assert PrintEntries(es + [e], |es| + 1) == PrintEntries(es, |es|) + [PrintEntry(e)];
    if es != [] {
      JoinSnoc(PrintEntries(es, |es|), PrintEntry(e), ';');
    }
  }

  // ---------------------------------------------------------------- which texts are policies

  lemma {:induction false} OnePiece(s: string, c: char)
    ensures |Split(s, [c])| == 1 <==> Free(s, [c])
  {
    hide Free;
    FreeMeansNone(s, c);
  }

  lemma FreeMeansNone(s: string, c: char)
    ensures Free(s, [c]) <==> FirstOf(s, [c]) == |s|
    ensures Free(s, [c]) <==> c !in s
  {
  }

  ghost predicate Twice(s: string, c: char) {
    exists i, j :: 0 <= i < j < |s| && s[i] == c && s[j] == c
  }

  /** At least three pieces: two separators. */
  lemma {:induction false} ThreePieces(s: string, c: char)
    ensures |Split(s, [c])| >= 3 <==> Twice(s, c)
  {
    hide Free;
    var q := FirstOf(s, [c]);
    if q < |s| {
      var rest := s[q + 1..];
      OnePiece(rest, c);
      FreeMeansNone(rest, c);
      if c in rest {
        var k :| 0 <= k < |rest| && rest[k] == c;
        assert s[q] == c && s[q + 1 + k] == c;
      }
      assert forall i :: 0 <= i < |s| && s[i] == c ==> i >= q;
      assert forall j :: q < j < |s| ==> s[j] == rest[j - q - 1];
    }
  }

  /** A text is a policy exactly when it has one bar, and two colons behind it; the product stands before the bar. */
  lemma {:induction false} EntryShape(text: string)
    ensures EntryOf(text).Some? <==> exists q :: 0 <= q < |text| && IsEntryAt(text, q)
    ensures forall q :: 0 <= q < |text| && IsEntryAt(text, q) ==>
                          EntryOf(text).Some? && EntryOf(text).value.product == text[..q]
  {
    hide Split, SlotsOf, Number, Free;
    var q := FirstOf(text, "|");
    BarAt(text, q);
    forall p | 0 <= p < |text| && IsEntryAt(text, p) ensures p == q {
      assert forall k :: 0 <= k < p ==> text[k] == text[..p][k];
    }
  }

  ghost predicate IsEntryAt(text: string, q: nat)
    requires q < |text|
  {
    text[q] == '|' && '|' !in text[..q] && '|' !in text[q + 1..] && Twice(text[q + 1..], ':')
  }

  lemma FirstHasNone(s: string, c: char, q: nat)
    requires q == FirstOf(s, [c])
    ensures c !in s[..q]
  {
  }

  lemma {:induction false} BarAt(text: string, q: nat)
    requires q == FirstOf(text, "|")
    ensures q == |text| ==> EntryOf(text).None?
    ensures q < |text| ==> (EntryOf(text).Some? <==> IsEntryAt(text, q))
    ensures q < |text| && EntryOf(text).Some? ==> EntryOf(text).value.product == text[..q]
  {
    hide SlotsOf, Number, Free, Twice;
    FreeMeansNone(text, '|');
    if q < |text| {
      var rest := text[q + 1..];
      OnePiece(rest, '|');
      FreeMeansNone(rest, '|');
      ThreePieces(rest, ':');
      FirstHasNone(text, '|', q);
      assert Split(text, "|") == [text[..q]] + Split(rest, "|");
    }
  }
}
