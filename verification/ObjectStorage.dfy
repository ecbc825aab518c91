/**
 The object store behind enrolment photos: keys sharded by tenant, and the
 paginated erasure of everything under a prefix.
 */
module ObjectStorage {
  import opened Common
  import opened Text

  type Key = string

  // ----------------------------------------------------------------------- keys

  /** The extension without its leading dot. */
  function Extension(extension: string): string {
    if extension != "" && extension[0] == '.' then extension[1..] else extension
  }

  /** The month on two digits. */
  function Month(month: nat): string {
    if month < 10 then "0" + Decimal(month) else Decimal(month)
  }

  /** `buildStorageKey` */
  function BuildStorageKey(tenantId: string, kind: string, id: string, extension: string,
                           year: nat, month: nat): Key {
    "tenants/" + tenantId + "/" + kind + "/" + Decimal(year) + "/" + Month(month) + "/" + id + "."
    + Extension(extension)
  }

  function MemberPrefix(tenantId: string): string {
    "tenants/" + tenantId + "/"
  }

  predicate SlashFree(s: string) {
    forall i :: 0 <= i < |s| ==> s[i] != '/'
  }

  /** The key is the tenant's prefix and something else. */
  lemma KeySplits(tenantId: string, kind: string, id: string, extension: string, year: nat, month: nat)
    ensures BuildStorageKey(tenantId, kind, id, extension, year, month)
         == MemberPrefix(tenantId) + (kind + "/" + Decimal(year) + "/" + Month(month) + "/" + id + "."
                                      + Extension(extension))
  {
    var y, m, e := Decimal(year), Month(month), Extension(extension);
    Regroup(MemberPrefix(tenantId), [kind, "/", y, "/", m, "/", id, ".", e]);
  }

  lemma Regroup(head: string, p: seq<string>)
    requires |p| == 9
    ensures head + p[0] + p[1] + p[2] + p[3] + p[4] + p[5] + p[6] + p[7] + p[8]
         == head + (p[0] + p[1] + p[2] + p[3] + p[4] + p[5] + p[6] + p[7] + p[8])
  {
  }

  /** After the common head, the first slash of a key stands right behind the tenant id. */
  lemma SlashAt(t: string, rest: string)
    requires SlashFree(t)
    ensures var key := MemberPrefix(t) + rest;
      && |key| >= |MemberPrefix(t)| == 9 + |t|
      && key[8 + |t|] == '/' && key[8..8 + |t|] == t && key[..|MemberPrefix(t)|] == MemberPrefix(t)
      && forall i :: 8 <= i < 8 + |t| ==> key[i] != '/'
  {
    var key := MemberPrefix(t) + rest;
    assert forall i :: 8 <= i < 8 + |t| ==> key[i] == t[i - 8];
  }

  lemma PrefixOf(t: string, rest: string, u: string)
    requires SlashFree(t) && SlashFree(u)
    ensures StartsWith(MemberPrefix(t) + rest, MemberPrefix(u)) <==> t == u
  {
    var key := MemberPrefix(t) + rest;
    SlashAt(t, rest);
    if StartsWith(key, MemberPrefix(u)) {
      assert key == MemberPrefix(u) + key[|MemberPrefix(u)|..];
      SlashAt(u, key[|MemberPrefix(u)|..]);
    }
  }

  /** With tenant ids free of slashes, a key lies under its own tenant's prefix and no other. */
  lemma KeyUnderPrefix(t: string, kind: string, id: string, extension: string, year: nat, month: nat, u: string)
    requires SlashFree(t) && SlashFree(u)
    ensures StartsWith(BuildStorageKey(t, kind, id, extension, year, month), MemberPrefix(u)) <==> t == u
  {
    KeySplits(t, kind, id, extension, year, month);
    PrefixOf(t, kind + "/" + Decimal(year) + "/" + Month(month) + "/" + id + "." + Extension(extension), u);
  }

  // --------------------------------------------------------------------- listing

  /** The objects under a prefix. */
  function Under(objects: set<Key>, prefix: string): set<Key> {
    set k | k in objects && StartsWith(k, prefix)
  }

  /** The order in which the store lists keys: a number for each, no two alike. */
  ghost predicate ListingOrder(order: Key -> int) {
    forall a, b :: order(a) == order(b) ==> a == b
  }

  /** What a listing still has to show: everything under the prefix after the token. */
  function Remaining(objects: set<Key>, prefix: string, token: Option<Key>, order: Key -> int): set<Key> {
    set k | k in objects && StartsWith(k, prefix) && (token.Some? ==> order(k) > order(token.value))
  }

  datatype Page = Page(keys: seq<Key>, next: Option<Key>)

  function KeySet(keys: seq<Key>): set<Key> {
    set i | 0 <= i < |keys| :: keys[i]
  }

  /**
   One page of `ListObjectsV2`: up to `size` remaining keys, none of them after a
   key that is left for later, and a continuation token when something is left.
   */
  ghost predicate IsPage(page: Page, rest: set<Key>, size: nat, order: Key -> int) {
    && KeySet(page.keys) <= rest && |page.keys| <= size
    && InOrder(page.keys, rest - KeySet(page.keys), order)
    && (|page.keys| < size ==> rest == KeySet(page.keys))
    && (page.next.Some? <==> rest - KeySet(page.keys) != {} && |page.keys| > 0)
    && (page.next.Some? ==> page.next.value == page.keys[|page.keys| - 1])
  }

  method FirstKey(keys: set<Key>, order: Key -> int) returns (first: Key)
    requires keys != {}
    ensures first in keys && forall k :: k in keys ==> order(first) <= order(k)
  {
    first :| first in keys;
    var todo := keys - {first};
    while todo != {}
      invariant todo <= keys && first in keys
      invariant forall k :: k in keys && k !in todo ==> order(first) <= order(k)
    {
      var k :| k in todo;
      todo := todo - {k};
      if order(k) < order(first) {
        first := k;
      }
    }
  }

  /** In listing order, and everything left over comes later. */
  predicate InOrder(keys: seq<Key>, left: set<Key>, order: Key -> int) {
    && (forall i, j :: 0 <= i < j < |keys| ==> order(keys[i]) < order(keys[j]))
    && (forall k, i :: k in left && 0 <= i < |keys| ==> order(keys[i]) < order(k))
  }

  lemma TakeOne(keys: seq<Key>, left: set<Key>, k: Key, order: Key -> int)
    requires ListingOrder(order) && InOrder(keys, left, order)
    requires k in left && forall x :: x in left ==> order(k) <= order(x)
    ensures InOrder(keys + [k], left - {k}, order)
  {
  }

  /** The first `size` keys of a set, in order, and the keys left for later. */
  method TakeFirst(rest: set<Key>, size: nat, order: Key -> int) returns (keys: seq<Key>, left: set<Key>)
    requires ListingOrder(order)
    ensures KeySet(keys) <= rest && left == rest - KeySet(keys) && |keys| <= size
    ensures InOrder(keys, left, order)
    ensures |keys| < size ==> left == {}
  {
    left, keys := rest, [];
    while left != {} && |keys| < size
      invariant KeySet(keys) <= rest && left == rest - KeySet(keys) && |keys| <= size
      invariant InOrder(keys, left, order)
      decreases left
    {
      var k := FirstKey(left, order);
      TakeOne(keys, left, k, order);
      KeySetSnoc(keys, k);
      left := left - {k};
      keys := keys + [k];
    }
  }

  /** The bucket. */
  class Bucket {
    var objects: set<Key>

    constructor (objects: set<Key>)
      ensures this.objects == objects
    {
      this.objects := objects;
    }

    method ListObjects(prefix: string, token: Option<Key>, size: nat, order: Key -> int) returns (page: Page)
      requires ListingOrder(order)
      ensures IsPage(page, Remaining(objects, prefix, token, order), size, order)
    {
      ghost var rest := Remaining(objects, prefix, token, order);
      var keys, left := TakeFirst(Remaining(objects, prefix, token, order), size, order);
      assert rest == KeySet(keys) + left;
      page := Page(keys, if left != {} && |keys| > 0 then Some(keys[|keys| - 1]) else None);
    }

    method DeleteObjects(keys: seq<Key>)
      modifies this
      ensures objects == old(objects) - KeySet(keys)
    {
      objects := objects - KeySet(keys);
    }

    /**
     `deletePrefix`: list a page, delete it, go on from the continuation token.
     `pageSize` gives the size of each page; no key is empty.
     */
    method DeletePrefix(prefix: string, pageSize: nat -> nat, order: Key -> int) returns (removed: nat)
      requires ListingOrder(order) && (forall n: nat :: pageSize(n) > 0) && "" !in objects
      modifies this
      ensures objects == old(objects) - Under(old(objects), prefix)
      ensures removed == |Under(old(objects), prefix)|
    {
      ghost var all := objects;
      ghost var gone: set<Key> := {};
      removed := 0;
      var token: Option<Key> := None;
      var call := 0;
      var more := true;
      while more
        invariant gone <= Under(all, prefix) && objects == all - gone && removed == |gone|
        invariant Under(all, prefix) - gone == Remaining(all - gone, prefix, token, order)
        invariant !more ==> Under(all, prefix) - gone == {}
        decreases more, |Under(all, prefix) - gone|
      {
        var size := pageSize(call);
        var page := ListObjects(prefix, token, size, order);
        call := call + 1;
        PageStep(all, prefix, gone, token, page, size, order);
        if |page.keys| > 0 {
          DeleteObjects(page.keys);
          removed := removed + |page.keys|;
        } else {
          assert objects - KeySet(page.keys) == objects;
        }
        gone := gone + KeySet(page.keys);
        token := page.next;
        more := token.Some?;
      }
      assert gone == Under(all, prefix);
    }
  }

  lemma KeySetSnoc(keys: seq<Key>, k: Key)
    ensures KeySet(keys + [k]) == KeySet(keys) + {k}
  {
    var longer := keys + [k];
    assert longer[|keys|] == k;
    forall x | x in KeySet(keys) ensures x in KeySet(longer) {
      var i :| 0 <= i < |keys| && keys[i] == x;
      assert longer[i] == x;
    }
  }

  lemma {:induction false} KeySetSize(keys: seq<Key>, order: Key -> int)
    requires forall i, j :: 0 <= i < j < |keys| ==> order(keys[i]) < order(keys[j])
    ensures |KeySet(keys)| == |keys|
  {
    if |keys| > 0 {
      var front := keys[..|keys| - 1];
      KeySetSize(front, order);
      assert keys == front + [keys[|keys| - 1]];
      KeySetSnoc(front, keys[|keys| - 1]);
    }
  }

  /** The next listing starts behind what this page showed, and misses nothing. */
  lemma NextPage(all: set<Key>, prefix: string, gone: set<Key>, token: Option<Key>, page: Page,
                 size: nat, order: Key -> int)
    requires gone <= Under(all, prefix)
    requires Under(all, prefix) - gone == Remaining(all - gone, prefix, token, order)
    requires IsPage(page, Remaining(all - gone, prefix, token, order), size, order) && size > 0
    ensures var rest := Remaining(all - gone, prefix, token, order);
      rest - KeySet(page.keys) == Remaining(all - (gone + KeySet(page.keys)), prefix, page.next, order)
  {
    var rest, shown := Remaining(all - gone, prefix, token, order), KeySet(page.keys);
    var rest' := Remaining(all - (gone + shown), prefix, page.next, order);
    if page.next.Some? {
      forall k | k in rest - shown ensures k in rest' {
        assert order(page.keys[|page.keys| - 1]) < order(k);
      }
    }
    forall k | k in rest' ensures k in rest - shown {
      assert k in Under(all, prefix) - gone;
    }
  }

  lemma PageSizes(rest: set<Key>, gone: set<Key>, page: Page, size: nat, order: Key -> int)
    requires IsPage(page, rest, size, order) && gone !! rest && size > 0
    ensures |gone + KeySet(page.keys)| == |gone| + |page.keys|
    ensures page.next.None? ==> rest - KeySet(page.keys) == {}
    ensures page.next.Some? ==> |rest - KeySet(page.keys)| < |rest|
  {
    KeySetSize(page.keys, order);
    assert gone !! KeySet(page.keys);
    if page.next.Some? {
      assert page.keys[0] in KeySet(page.keys);
      SmallerWithout(rest, KeySet(page.keys));
    }
  }

  /** What one turn of `DeletePrefix` does to the objects still to come. */
  lemma PageStep(all: set<Key>, prefix: string, gone: set<Key>, token: Option<Key>, page: Page,
                 size: nat, order: Key -> int)
    requires gone <= Under(all, prefix) && size > 0
    requires Under(all, prefix) - gone == Remaining(all - gone, prefix, token, order)
    requires IsPage(page, Remaining(all - gone, prefix, token, order), size, order)
    ensures var gone' := gone + KeySet(page.keys);
      && gone' <= Under(all, prefix) && |gone'| == |gone| + |page.keys|
      && all - gone - KeySet(page.keys) == all - gone'
      && Under(all, prefix) - gone' == Remaining(all - gone', prefix, page.next, order)
      && (page.next.None? ==> Under(all, prefix) - gone' == {})
      && (page.next.Some? ==> |Under(all, prefix) - gone'| < |Under(all, prefix) - gone|)
  {
    var under := Under(all, prefix);
    PageSizes(under - gone, gone, page, size, order);
    NextPage(all, prefix, gone, token, page, size, order);
    WithoutBoth(under, gone, KeySet(page.keys));
    WithoutBoth(all, gone, KeySet(page.keys));
  }

  lemma WithoutBoth(a: set<Key>, b: set<Key>, c: set<Key>)
    ensures a - b - c == a - (b + c)
  {
  }

  lemma SmallerWithout(a: set<Key>, b: set<Key>)
    requires b <= a && b != {}
    ensures |a - b| < |a|
  {
    assert a == (a - b) + b;
    assert |a| == |a - b| + |b|;
  }

  /** A photo of some tenant, stored under the key built for it. */
  datatype Photo = Photo(tenantId: string, kind: string, id: string, extension: string, year: nat, month: nat)

  function KeyOf(p: Photo): Key {
    BuildStorageKey(p.tenantId, p.kind, p.id, p.extension, p.year, p.month)
  }

  /** Erasing a tenant's prefix removes that tenant's photos and nobody else's. */
  method EraseTenant(bucket: Bucket, photos: set<Photo>, tenantId: string, pageSize: nat -> nat, order: Key -> int)
    returns (removed: nat)
    requires ListingOrder(order) && (forall n: nat :: pageSize(n) > 0) && "" !in bucket.objects
    requires SlashFree(tenantId) && forall p :: p in photos ==> SlashFree(p.tenantId)
    requires bucket.objects == set p | p in photos :: KeyOf(p)
    modifies bucket
    ensures bucket.objects == set p | p in photos && p.tenantId != tenantId :: KeyOf(p)
  {
    ghost var before := bucket.objects;
    removed := bucket.DeletePrefix(MemberPrefix(tenantId), pageSize, order);
    forall p | p in photos
      ensures KeyOf(p) in Under(before, MemberPrefix(tenantId)) <==> p.tenantId == tenantId
    {
      KeyUnderPrefix(p.tenantId, p.kind, p.id, p.extension, p.year, p.month, tenantId);
    }
  }

  /** The month of a key is two digits that mean that month. */
  lemma MonthTwoDigits(month: nat)
    requires 1 <= month <= 12
    ensures |Month(month)| == 2 && NumberOf(Month(month)) == month
  {
    DecimalMeans(month);
    DecimalDigits(month);
    var text := Month(month);
    if month < 10 {
      assert text[..1] == "0" && text[..1][..0] == "" && NumberOf("0") == 0;
    } else {
      assert |Decimal(month / 10)| == 1;
    }
  }

  /** One leading dot of an extension does not matter. */
  lemma DotDropped(extension: string)
    requires extension == "" || extension[0] != '.'
    ensures Extension("." + extension) == Extension(extension) == extension
  {
  }
}
