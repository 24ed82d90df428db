/** The data that scripts attach to elements: an element carries only a number, and the data
    lie in one global cache under that number. */
module DataCache {
  import opened Wrappers

  type Elem = nat
  type Data = map<string, int>

  class Cache {
    // the expando property of the elements that have one
    var ids: map<Elem, nat>
    var cache: map<nat, Data>
    var uuid: nat
    // whose number it is
    ghost var owner: map<nat, Elem>

    // Elements with data and cache entries correspond one to one, by the numbers given out.
    ghost predicate Valid()
      reads this
    {
      && owner.Keys == cache.Keys
      && (forall e <- ids :: 1 <= ids[e] <= uuid && ids[e] in cache && owner[ids[e]] == e)
      && (forall i <- cache :: owner[i] in ids && ids[owner[i]] == i)
    }

    // What the cache stands for: an independent map for each element that has one
    ghost function View(): map<Elem, Data>
      reads this
      requires Valid()
    {
      map e <- ids :: cache[ids[e]]
    }

    constructor ()
      ensures Valid() && View() == map[]
    {
      ids, cache, uuid, owner := map[], map[], 0, map[];
    }

    // `var id = elem[ expando ]`, a new number if there is none, and an entry for it
    method Enter(elem: Elem) returns (id: nat)
      requires Valid()
      modifies this
      ensures Valid() && elem in ids && ids[elem] == id && id in cache
      ensures View() == if elem in old(View()) then old(View()) else old(View())[elem := map[]]
      ensures forall e <- old(ids) :: e in ids && ids[e] == old(ids)[e]
    {
      if elem in ids {
        return ids[elem];
      }
      uuid := uuid + 1;
      id := uuid;
      ids := ids[elem := id];
      cache := cache[id := map[]];
      owner := owner[id := elem];
    }

    // cache[ id ] = data, for an element that has its number
    method Put(elem: Elem, data: Data)
      requires Valid() && elem in ids
      modifies this`cache
      ensures Valid() && View() == old(View())[elem := data]
    {
      cache := cache[ids[elem] := data];
    }

    // data(elem): the whole map of the element, an empty one being made for it
    method All(elem: Elem) returns (all: Data)
      requires Valid()
      modifies this
      ensures Valid() && elem in View() && all == View()[elem]
      ensures View() == if elem in old(View()) then old(View()) else old(View())[elem := map[]]
    {
      var id := Enter(elem);
      all := cache[id];
    }

    // data(elem, name)
    method Get(elem: Elem, name: string) returns (v: Option<int>)
      requires Valid()
      ensures v == if elem in View() && name in View()[elem] then Some(View()[elem][name]) else None
    {
      if elem !in ids {
        return None;
      }
      var thisCache := cache[ids[elem]];
      v := if name in thisCache then Some(thisCache[name]) else None;
    }

    // data(elem, name, value)
    method Set(elem: Elem, name: string, value: int)
      requires Valid()
      modifies this
      ensures Valid()
      ensures View() == old(View())[elem := (if elem in old(View()) then old(View())[elem] else map[])[name := value]]
    {
      var id := Enter(elem);
      Put(elem, cache[id][name := value]);
    }

    // data(elem, object): a copy of the object takes the place of whatever was there
    method SetAll(elem: Elem, all: Data)
      requires Valid()
      modifies this
      ensures Valid() && View() == old(View())[elem := all]
    {
      var id := Enter(elem);
      Put(elem, all);
    }

    // removeData(elem)
    method RemoveAll(elem: Elem)
      requires Valid()
      modifies this
      ensures Valid() && View() == old(View()) - {elem}
      ensures elem in old(ids) ==> elem !in ids && old(ids)[elem] !in cache
    {
      if elem in ids {
        var id := ids[elem];
        ids := ids - {elem};
        cache := cache - {id};
        owner := owner - {id};
      }
    }

    // removeData(elem, name); the empty name stands for all of them
    method Remove(elem: Elem, name: string)
      requires Valid()
      modifies this
      ensures Valid()
      ensures View() == Without(old(View()), elem, name)
      ensures elem in old(ids) && elem !in View() ==> elem !in ids && old(ids)[elem] !in cache
    {
      if name == "" {
        RemoveAll(elem);
        return;
      }
      if elem in ids {
        var thisCache := cache[ids[elem]] - {name};
        Put(elem, thisCache);
        if thisCache == map[] {
          RemoveAll(elem);
        }
      }
    }
  }

  // Taking a name away; an element whose last name goes is forgotten.
  function Without(view: map<Elem, Data>, elem: Elem, name: string): map<Elem, Data> {
    if elem !in view then view
    else if name == "" || view[elem] - {name} == map[] then view - {elem}
    else view[elem := view[elem] - {name}]
  }

  // Is this name of this element what is taken away?
  predicate Taken(elem: Elem, name: string, e: Elem, n: string) {
    e == elem && (name == "" || n == name)
  }

  /** Taking away leaves every other name of every element with its value, and of the element itself
      nothing at all if no name is left. */
  lemma WithoutExactly(view: map<Elem, Data>, elem: Elem, name: string)
    ensures var left := Without(view, elem, name);
            && (forall e <- left :: e in view)
            && (forall e <- view | e != elem :: e in left && left[e] == view[e])
            && (elem in left <==> elem in view && exists n <- view[elem] :: !Taken(elem, name, elem, n))
            && (elem in left ==> forall n :: (n in left[elem] <==> n in view[elem] && !Taken(elem, name, elem, n)) &&
                                             (n in left[elem] ==> left[elem][n] == view[elem][n]))
  {
    if elem in view {
      var rest := view[elem] - {name};
      assert rest == map[] <==> forall n <- view[elem] :: n == name by {
        assert forall n <- view[elem] :: n == name || n in rest;
      }
    }
  }
}
