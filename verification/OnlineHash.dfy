/** The online experiment plugin: src/online_hash.cc. */
module OnlineHash {
  import opened Options
  import opened Bytes
  import opened Text
  import opened Policy
  import opened Buckets

  /** Which product's policy is used: the most specific of four names that has one, the language before the version. */
  ghost predicate IsLookup(table: Table, app: string, ver: string, lan: string, product: string) {
    && (app + ver + lan in table ==> product == app + ver + lan)
    && (app + ver + lan !in table && app + lan in table ==> product == app + lan)
    && (app + ver + lan !in table && app + lan !in table && app + ver in table ==> product == app + ver)
    && (app + ver + lan !in table && app + lan !in table && app + ver !in table && app in table ==> product == app)
    && (app + ver + lan !in table && app + lan !in table && app + ver !in table && app !in table ==>
          product == "default")
  }

  // max_config_id
  const BUCKETS: nat := 1000

  /** What a policy with slots gives the user whose hash this is. */
  function Served(policy: Policy, hash: nat): string
    requires policy.slots != []
  {
    policy.prefix + Chosen(policy.slots, hash % BUCKETS)
  }

  class DyeingOnlinePlugin {
    // policies by business type and product
    var policyMap: map<string, Table>
    // CityHash64WithSeed, of which nothing is used but that it is a function
    const cityHash: (string, Word) -> nat

    constructor (cityHash: (string, Word) -> nat)
      ensures policyMap == map[] && this.cityHash == cityHash
    {
      policyMap := map[];
      this.cityHash := cityHash;
    }

    ghost function TableOf(business: string): Table
      reads this
    {
      if business in policyMap then policyMap[business] else map[]
    }

    method ParseSlots(fields: seq<string>) returns (slots: seq<Slot>)
      requires |fields| >= 2
      ensures slots == SlotsOf(fields, |fields|)
    {
      slots := [];
      for index := 2 to |fields|
        invariant slots == SlotsOf(fields, index)
      {
        var ids := SepStr(fields[index], ",", true);
        if |ids| != 3 {
          continue;
        }
        slots := slots + [Slot(ids[0], Number(ids[1]), Number(ids[2]))];
      }
    }

    /**
      Adds the policies written in conf to those of a business type; entries that are not of the
      form product|prefix:seed:slot... are skipped.
     */
    method ParseProductPolicy(business: string, conf: string) returns (ok: bool)
      modifies this
      ensures ok
      ensures var texts := Split(conf, ";");
        policyMap == old(policyMap)[business := Loaded(old(TableOf(business)), texts, |texts|)]
    {
      hide Split;
      if business !in policyMap {
        policyMap := policyMap[business := map[]];
      }
      ghost var table := policyMap[business];
      var products := SepStr(conf, ";", true);
      for i := 0 to |products|
        invariant business in policyMap
        invariant policyMap == old(policyMap)[business := Loaded(table, products, i)]
      {
        var pair := SepStr(products[i], "|", true);
        if |pair| != 2 {
          continue;
        }
        var fields := SepStr(pair[1], ":", true);
        if |fields| < 3 {
          continue;
        }
        var slots := ParseSlots(fields);
        var policy := Policy(fields[0], Number(fields[1]), slots);
        policyMap := policyMap[business := policyMap[business][pair[0] := policy]];
      }
      return true;
    }

    /**
      Loading what the configuration service holds for a business type: nothing is an error, and
      the printed form of a list of policies adds exactly these policies.
     */
    method LoadInternal(business: string, conf: string) returns (ok: bool)
      modifies this
      ensures ok <==> conf != ""
      ensures !ok ==> policyMap == old(policyMap)
      ensures ok ==> forall es :: CleanEntries(es) && conf == Print(es) ==>
        policyMap == old(policyMap)[business := Filled(old(TableOf(business)), es, |es|)]
    {
      hide Split, Print, CleanEntries, Filled;
      if conf == "" {
        return false;
      }
      ghost var table := TableOf(business);
      forall es | CleanEntries(es) && conf == Print(es)
        ensures var texts := Split(conf, ";"); Loaded(table, texts, |texts|) == Filled(table, es, |es|)
      {
        ParsePrint(table, es);
      }
      ok := ParseProductPolicy(business, conf);
    }

    method FindProduct(table: Table, app: string, ver: string, lan: string) returns (product: string)
      ensures IsLookup(table, app, ver, lan, product)
    {
      product := app + ver + lan;
      if product !in table {
        product := app + lan;
        if product !in table {
          product := app + ver;
          if product !in table {
            product := app;
            if product !in table {
              product := "default";
            }
          }
        }
      }
    }

    method Allocate(slots: seq<Slot>, hv: nat) returns (confId: string)
      requires slots != []
      ensures confId == Chosen(slots, hv)
    {
      hide FirstHolding;
      confId := "";
      var index := 0;
      while index < |slots|
        invariant index <= |slots| && confId == ""
        invariant forall k :: 0 <= k < index ==> !Holds(slots[k], hv)
      {
        var slot := slots[index];
        if hv >= slot.start && hv <= slot.end {
          confId := slot.confId;
          break;
        }
        index := index + 1;
      }
      assert FirstHolding(slots, hv) == index;
      if confId == "" {
        confId := slots[0].confId;
      }
    }

    /**
      The configuration of a user: found exactly when the business type is loaded and one of the
      candidate products or the default has a policy. A policy that was read without any slot
      cannot be served; SlotsExist says which texts give one.
     */
    method Get(uid: string, app: string, ver: string, lan: string, business: string)
      returns (config: Option<string>)
      requires business in policyMap ==> forall p ::
        IsLookup(policyMap[business], app, ver, lan, p) && p in policyMap[business]
        ==> policyMap[business][p].slots != []
      ensures config.None? ==> forall p ::
        business in policyMap && IsLookup(policyMap[business], app, ver, lan, p)
        ==> p !in policyMap[business]
      ensures config.Some? ==> business in policyMap && exists p ::
        && IsLookup(policyMap[business], app, ver, lan, p)
        && p in policyMap[business]
        && config.value == Served(policyMap[business][p], cityHash(uid, policyMap[business][p].seed))
    {
      if business !in policyMap {
        return None;
      }
      var table := policyMap[business];
      var product := FindProduct(table, app, ver, lan);
      if product !in table {
        return None;
      }
      var policy := table[product];
      var hv := cityHash(uid, policy.seed) % BUCKETS;
      var confId := Allocate(policy.slots, hv);
      return Some(policy.prefix + confId);
    }
  }

  // ---------------------------------------------------------------- shares of what is served

  /** How many of the first n hashes from 1000 k on are served this configuration. */
  ghost function TimesServed(policy: Policy, id: string, k: nat, n: nat): nat
    requires policy.slots != []
  {
    if n == 0 then 0
    else
      TimesServed(policy, id, k, n - 1) +
      if Served(policy, 1000 * k + n - 1) == policy.prefix + id then 1 else 0
  }

  lemma SamePrefix(prefix: string, a: string, b: string)
    ensures prefix + a == prefix + b <==> a == b
  {
    assert (prefix + a)[|prefix|..] == a && (prefix + b)[|prefix|..] == b;
  }

  lemma HashBucket(k: nat, i: nat)
    requires i < 1000
    ensures (1000 * k + i) % BUCKETS == i
  {
  }

  lemma {:induction false} TimesAreShare(policy: Policy, id: string, k: nat, n: nat)
    requires policy.slots != [] && n <= 1000
    ensures TimesServed(policy, id, k, n) == Share(policy.slots, id, n)
  {
    hide Chosen;
    if n > 0 {
      TimesAreShare(policy, id, k, n - 1);
      HashBucket(k, n - 1);
      SamePrefix(policy.prefix, Chosen(policy.slots, n - 1), id);
    }
  }

  /**
    Of every thousand hashes a configuration with disjoint named slots is served as many as its slots are long; the
    first configuration is served the rest as well.
   */
  lemma ServedByLength(policy: Policy, id: string, k: nat)
    requires policy.slots != [] && Disjoint(policy.slots, 1000) && Named(policy.slots)
    ensures TotalLength(policy.slots, |policy.slots|) <= 1000
    ensures TimesServed(policy, id, k, 1000) ==
      LengthOf(policy.slots, id, |policy.slots|) +
      if policy.slots[0].confId == id then 1000 - TotalLength(policy.slots, |policy.slots|) else 0
  {
    hide TimesServed, Share;
    TimesAreShare(policy, id, k, 1000);
    ShareIsLength(policy.slots, id, 1000);
  }

  ghost function AllServed(policy: Policy, ids: seq<string>, k: nat, m: nat): nat
    requires policy.slots != [] && m <= |ids|
  {
    if m == 0 then 0 else AllServed(policy, ids, k, m - 1) + TimesServed(policy, ids[m - 1], k, 1000)
  }

  lemma {:induction false} AllServedIsSum(policy: Policy, ids: seq<string>, k: nat, m: nat)
    requires policy.slots != [] && m <= |ids|
    ensures AllServed(policy, ids, k, m) == SumOfShares(policy.slots, ids, 1000, m)
  {
    hide TimesServed, Share;
    if m > 0 {
      AllServedIsSum(policy, ids, k, m - 1);
      TimesAreShare(policy, ids[m - 1], k, 1000);
    }
  }

  /** Whatever the slots, every one of a thousand hashes is served exactly one of the configurations. */
  lemma {:induction false} EveryHashServed(policy: Policy, ids: seq<string>, k: nat)
    requires policy.slots != []
    requires forall i, j :: 0 <= i < j < |ids| ==> ids[i] != ids[j]
    requires forall i :: 0 <= i < |policy.slots| ==> policy.slots[i].confId in ids
    ensures AllServed(policy, ids, k, |ids|) == 1000
  {
    hide AllServed, SumOfShares;
    AllServedIsSum(policy, ids, k, |ids|);
    SharesSumUp(policy.slots, ids, 1000);
  }
}
