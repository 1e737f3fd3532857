/**
 * The data-management side of `BaseRecAdapter<D>`: an ordered item list,
 * the notify-on-change flag, the optional multi-item-type strategy and the
 * item layout id. Every call of `notifyDataSetChanged()` is counted in
 * `notifications`; the lock around each mutation is erased (the model is
 * sequential).
 */
module Adapter {
  import opened Utils
  import opened ListAlgebra
  import opened Sorting

  /** What `RecyclerView.Adapter.getItemViewType` returns when it is not overridden. */
  const DefaultViewType: int := 0

  /**
   * `RecMultiItemSupport<D>`: maps (position, item) to a view type, and a view
   * type to the layout resource inflated for it.
   */
  datatype MultiItemSupport<!D> = MultiItemSupport(itemViewType: (int, D) -> int, itemLayoutId: int -> int)

  class BaseRecAdapter<D(==, !new)> {
    var data: seq<D>
    var notifyOnChange: bool
    var notifications: nat
    var multiItemSupport: Nullable<MultiItemSupport<D>>
    var itemLayoutId: int

    /**
     * Every constructor overload funnels into `init`: a null data set becomes
     * an empty list; the layout id defaults to 0. The `Context` is not modelled.
     */
    constructor (itemLayoutRes: int := 0, dataSet: Nullable<seq<D>> := Null)
      ensures data == (if dataSet.Null? then [] else dataSet.value)
      ensures notifyOnChange && notifications == 0
      ensures multiItemSupport == Null && itemLayoutId == itemLayoutRes
    {
      data := if dataSet.Null? then [] else dataSet.value;
      notifyOnChange := true;
      notifications := 0;
      multiItemSupport := Null;
      itemLayoutId := itemLayoutRes;
    }

    /** The stand-in for `notifyDataSetChanged()`: one more refresh signal. */
    method NotifyDataSetChanged()
      modifies this`notifications
      ensures notifications == old(notifications) + 1
    {
      notifications := notifications + 1;
    }

    /** `getMultiItemSupport()`: the installed strategy, or none. */
    function GetMultiItemSupport(): (s: Nullable<MultiItemSupport<D>>)
      reads this
      ensures s == multiItemSupport
    {
      multiItemSupport
    }

    method SetMultiItemSupport(support: Nullable<MultiItemSupport<D>>)
      modifies this`multiItemSupport
      ensures multiItemSupport == support
      ensures GetMultiItemSupport() == support
    {
      multiItemSupport := support;
    }

    /**
     * The layout choice of `onCreateViewHolder`: with a strategy, the layout id
     * is overwritten by the strategy's layout for `viewType`; without one, the
     * constructor's layout id is kept. The holder inflation itself is not modelled.
     */
    method CreateViewHolderLayout(viewType: int) returns (layoutId: int)
      modifies this`itemLayoutId
      ensures multiItemSupport.Ref? ==> itemLayoutId == multiItemSupport.value.itemLayoutId(viewType)
      ensures multiItemSupport.Null? ==> itemLayoutId == old(itemLayoutId)
      ensures layoutId == itemLayoutId
    {
      if multiItemSupport.Ref? {
        itemLayoutId := multiItemSupport.value.itemLayoutId(viewType);
      }
      layoutId := itemLayoutId;
    }

    /**
     * `getItemViewType`: the strategy's answer for the item at `position`, or the
     * toolkit default. Only the strategy path reads the list, so only it needs
     * `position` in range.
     */
    function GetItemViewType(position: int): (viewType: int)
      reads this
      requires multiItemSupport.Ref? ==> 0 <= position < |data|
      ensures multiItemSupport.Null? ==> viewType == DefaultViewType
      ensures multiItemSupport.Ref? ==> viewType == multiItemSupport.value.itemViewType(position, data[position])
    {
      if multiItemSupport.Ref? then multiItemSupport.value.itemViewType(position, data[position])
      else DefaultViewType
    }

    /** `add(D)`: appends a non-null item. */
    method Add(item: Nullable<D>)
      modifies this`data, this`notifications
      ensures data == if item.Null? then old(data) else old(data) + [item.value]
      ensures notifications == old(notifications) + if item.Ref? && notifyOnChange then 1 else 0
    {
      if item.Null? {
        return;
      }
      data := data + [item.value];
      if notifyOnChange {
        NotifyDataSetChanged();
      }
    }

    /** `add(Collection)`: appends every element, in order, unless the collection is null or empty. */
    method AddAll(collection: Nullable<seq<D>>)
      modifies this`data, this`notifications
      ensures data == if IsEmptyOrNull(collection) then old(data) else old(data) + collection.value
      ensures notifications == old(notifications) + if !IsEmptyOrNull(collection) && notifyOnChange then 1 else 0
    {
      if IsEmptyOrNull(collection) {
        return;
      }
      data := data + collection.value;
      if notifyOnChange {
        NotifyDataSetChanged();
      }
    }

    /** `add(D...)`: the varargs form, delegating to `add(Collection)`. */
    method AddItems(items: Nullable<seq<D>>)
      modifies this`data, this`notifications
      ensures data == if IsEmptyOrNull(items) then old(data) else old(data) + items.value
      ensures notifications == old(notifications) + if !IsEmptyOrNull(items) && notifyOnChange then 1 else 0
    {
      if IsEmptyOrNull(items) {
        return;
      }
      AddAll(items);
    }

    /**
     * `insert(int, D)`: puts a non-null item at `position`. `ArrayList.add(int, E)`
     * throws unless `0 <= position <= size`; a null item returns before that.
     */
    method Insert(position: int, item: Nullable<D>)
      requires item.Ref? ==> 0 <= position <= |data|
      modifies this`data, this`notifications
      ensures item.Null? ==> data == old(data)
      ensures item.Ref? ==> data == old(data)[..position] + [item.value] + old(data)[position..]
      ensures notifications == old(notifications) + if item.Ref? && notifyOnChange then 1 else 0
    {
      if item.Null? {
        return;
      }
      data := data[..position] + [item.value] + data[position..];
      if notifyOnChange {
        NotifyDataSetChanged();
      }
    }

    /** `insert(int, Collection)`: splices the whole collection in at `position`. */
    method InsertAll(position: int, collection: Nullable<seq<D>>)
      requires !IsEmptyOrNull(collection) ==> 0 <= position <= |data|
      modifies this`data, this`notifications
      ensures IsEmptyOrNull(collection) ==> data == old(data)
      ensures !IsEmptyOrNull(collection) ==>
                data == old(data)[..position] + collection.value + old(data)[position..]
      ensures notifications == old(notifications) + if !IsEmptyOrNull(collection) && notifyOnChange then 1 else 0
    {
      if IsEmptyOrNull(collection) {
        return;
      }
      data := data[..position] + collection.value + data[position..];
      if notifyOnChange {
        NotifyDataSetChanged();
      }
    }

    /** `insert(int, D...)`: the varargs form of `InsertAll`, with the same guard and effect. */
    method InsertItems(position: int, items: Nullable<seq<D>>)
      requires !IsEmptyOrNull(items) ==> 0 <= position <= |data|
      modifies this`data, this`notifications
      ensures IsEmptyOrNull(items) ==> data == old(data)
      ensures !IsEmptyOrNull(items) ==> data == old(data)[..position] + items.value + old(data)[position..]
      ensures notifications == old(notifications) + if !IsEmptyOrNull(items) && notifyOnChange then 1 else 0
    {
      if IsEmptyOrNull(items) {
        return;
      }
      data := data[..position] + items.value + data[position..];
      if notifyOnChange {
        NotifyDataSetChanged();
      }
    }

    /**
     * `remove(D)`: drops the first element equal to `item`. An absent item leaves
     * the list as it is but still notifies; a null item returns at once.
     */
    method Remove(item: Nullable<D>)
      modifies this`data, this`notifications
      ensures item.Null? ==> data == old(data)
      ensures item.Ref? ==>
                var i := IndexOf(old(data), item.value);
                data == if i == -1 then old(data) else old(data)[..i] + old(data)[i + 1..]
      ensures notifications == old(notifications) + if item.Ref? && notifyOnChange then 1 else 0
    {
      if item.Null? {
        return;
      }
      RemoveFirstSplice(data, item.value);
      data := RemoveFirst(data, item.value);
      if notifyOnChange {
        NotifyDataSetChanged();
      }
    }

    /**
     * `remove(int)`: drops the element at `position` when the list is longer than
     * `position`, and notifies either way. A negative position makes
     * `ArrayList.remove(int)` throw.
     */
    method RemoveAt(position: int)
      requires 0 <= position
      modifies this`data, this`notifications
      ensures position < |old(data)| ==> data == old(data)[..position] + old(data)[position + 1..]
      ensures position >= |old(data)| ==> data == old(data)
      ensures notifications == old(notifications) + if notifyOnChange then 1 else 0
    {
      if |data| > position {
        data := data[..position] + data[position + 1..];
      }
      if notifyOnChange {
        NotifyDataSetChanged();
      }
    }

    /**
     * `sort(Comparator)`: a stable sort by a comparator that keeps the
     * `Comparator` contract; a null comparator returns at once. The new list is
     * ordered, and every class of equal-comparing items keeps its old order;
     * `StableSortIsSortedBy` shows that only one list has both properties.
     */
    method Sort(comparator: Nullable<(D, D) -> int>)
      requires comparator.Ref? ==> ComparatorContract(comparator.value)
      modifies this`data, this`notifications
      ensures comparator.Null? ==> data == old(data)
      ensures comparator.Ref? ==> data == SortedBy(old(data), comparator.value)
      ensures comparator.Ref? ==> Sorted(data, comparator.value) && multiset(data) == multiset(old(data))
      ensures comparator.Ref? ==> forall key ::
                Filtered(data, EquivalentTo(comparator.value, key)) ==
                Filtered(old(data), EquivalentTo(comparator.value, key))
      ensures notifications == old(notifications) + if comparator.Ref? && notifyOnChange then 1 else 0
    {
      if comparator.Null? {
        return;
      }
      SortedByIsSorted(data, comparator.value);
      SortedByIsPermutation(data, comparator.value);
      forall key {
        SortedByIsStable(data, comparator.value, key);
      }
      data := SortedBy(data, comparator.value);
      if notifyOnChange {
        NotifyDataSetChanged();
      }
    }

    /** `getDataSet()`: the list's current value (the live reference is not modelled). */
    function GetDataSet(): (s: seq<D>)
      reads this
      ensures s == data && |s| == GetCount()
    {
      data
    }

    method SetNotifyOnChange(notify: bool)
      modifies this`notifyOnChange
      ensures notifyOnChange == notify
    {
      notifyOnChange := notify;
    }

    /** `getCount()`: the number of items. */
    function GetCount(): (n: nat)
      reads this
      ensures n == |data|
    {
      |data|
    }

    /** `getItemCount()`: the count RecyclerView asks for is `getCount()`. */
    function GetItemCount(): (n: nat)
      reads this
      ensures n == |data| && n == GetCount()
    {
      GetCount()
    }

    /** `getItem(int)`: `List.get` throws outside `0 <= position < size`. */
    function GetItem(position: int): (d: D)
      reads this
      requires 0 <= position < |data|
      ensures d == data[position]
      ensures d in data
    {
      data[position]
    }

    /** `getPosition(D)`: -1 for null or an absent item, else the first index holding it. */
    function GetPosition(item: Nullable<D>): (position: int)
      reads this
      ensures position == -1 <==> item.Null? || item.value !in data
      ensures position != -1 ==>
                0 <= position < |data| && data[position] == item.value &&
                forall j :: 0 <= j < position ==> data[j] != item.value
    {
      if item.Null? then -1 else IndexOf(data, item.value)
    }

    /** `getItemId(int)`: the id of a row is its position. */
    function GetItemId(position: int): (id: int)
      ensures id == position
    {
      position
    }

    /** `update(Collection)`: replaces the contents with the collection's; null is ignored. */
    method Update(dataSet: Nullable<seq<D>>)
      modifies this`data, this`notifications
      ensures data == if dataSet.Null? then old(data) else dataSet.value
      ensures notifications == old(notifications) + if dataSet.Ref? && notifyOnChange then 1 else 0
    {
      if dataSet.Null? {
        return;
      }
      data := [];
      data := data + dataSet.value;
      if notifyOnChange {
        NotifyDataSetChanged();
      }
    }

    method Clear()
      modifies this`data, this`notifications
      ensures data == []
      ensures notifications == old(notifications) + if notifyOnChange then 1 else 0
    {
      data := [];
      if notifyOnChange {
        NotifyDataSetChanged();
      }
    }

    /** `reverse()`: the list in the opposite order. */
    method Reverse()
      modifies this`data, this`notifications
      ensures data == Reversed(old(data))
      ensures multiset(data) == multiset(old(data))
      ensures notifications == old(notifications) + if notifyOnChange then 1 else 0
    {
      ReversedMultiset(data);
      data := Reversed(data);
      if notifyOnChange {
        NotifyDataSetChanged();
      }
    }

    /**
     * `filter(Filter)`: copies the accepted items, in order, into a fresh list and
     * makes it the data set.
     */
    method Filter(accept: D -> bool)
      modifies this`data, this`notifications
      ensures data == Filtered(old(data), accept)
      ensures |data| <= |old(data)|
      ensures forall i :: 0 <= i < |data| ==> accept(data[i])
      ensures forall x :: multiset(data)[x] == if accept(x) then multiset(old(data))[x] else 0
      ensures notifications == old(notifications) + if notifyOnChange then 1 else 0
    {
      var kept: seq<D> := [];
      var i := 0;
      while i < |data|
        invariant 0 <= i <= |data|
        invariant kept == Filtered(data[..i], accept)
      {
        assert data[..i + 1][..i] == data[..i];
        if accept(data[i]) {
          kept := kept + [data[i]];
        }
        i := i + 1;
      }
      assert data[..i] == data;
      FilteredExact(data, accept);
      data := kept;
      if notifyOnChange {
        NotifyDataSetChanged();
      }
    }

    /** `isEmpty()`. */
    function IsEmpty(): (empty: bool)
      reads this
      ensures empty <==> |data| == 0
      ensures empty <==> GetCount() == 0
    {
      |data| == 0
    }

    /** `refresh(Collection)`: replaces the contents; unlike `update` it has no null guard. */
    method Refresh(dataSet: seq<D>)
      modifies this`data, this`notifications
      ensures data == dataSet
      ensures notifications == old(notifications) + if notifyOnChange then 1 else 0
    {
      data := [];
      data := data + dataSet;
      if notifyOnChange {
        NotifyDataSetChanged();
      }
    }

    /** `refresh(D...)`: the varargs form, delegating to `refresh(Collection)`. */
    method RefreshItems(items: seq<D>)
      modifies this`data, this`notifications
      ensures data == items
      ensures notifications == old(notifications) + if notifyOnChange then 1 else 0
    {
      Refresh(items);
    }
  }

  /** A client: [A, B, C], then remove(1) gives [A, C], then insert(1, X) gives [A, X, C]. */
  method ExampleRemoveInsert<D(==, !new)>(a: D, b: D, c: D, x: D)
  {
    var adapter := new BaseRecAdapter<D>(dataSet := Ref([a, b, c]));
    adapter.RemoveAt(1);
    assert adapter.data == [a, c];
    adapter.Insert(1, Ref(x));
    assert adapter.data == [a, x, c];
    assert adapter.notifications == 2;
  }

  /** A client that switches notification off: later mutations are not signalled. */
  method ExampleSilentBatch<D(==, !new)>(a: D, b: D, c: D)
  {
    var adapter := new BaseRecAdapter<D>(dataSet := Ref([a, b, c]));
    adapter.SetNotifyOnChange(false);
    adapter.Add(Null);
    adapter.Reverse();
    assert adapter.data[0] == c && adapter.data[2] == a;
    assert adapter.notifications == 0;
  }
}
