/** The access list as laid out: an index per address into a list of slot sets, which only ever grows. */
module AccessLists {
  import opened Words
  import opened StateModel

  /** An address without slots has index -1; sets of deleted addresses stay behind, unreferenced. */
  datatype AccessList = AccessList(addresses: map<Address, int>, slots: seq<set<Word>>)

  const NoAccess := AccessList(map[], [])

  /** Indices are in range and no two addresses share a set. */
  ghost predicate Sound(al: AccessList) {
    && (forall a :: a in al.addresses ==> -1 <= al.addresses[a] < |al.slots|)
    && (forall a, b :: a in al.addresses && b in al.addresses && a != b && al.addresses[a] != -1 ==>
          al.addresses[a] != al.addresses[b])
  }

  predicate HasSlot(al: AccessList, a: Address, slot: Word) {
    a in al.addresses && 0 <= al.addresses[a] < |al.slots| && slot in al.slots[al.addresses[a]]
  }

  /** The slots an access list denotes. */
  ghost predicate SlotsAre(al: AccessList, s: set<(Address, Word)>) {
    forall a: Address, slot: Word :: (a, slot) in s <==> HasSlot(al, a, slot)
  }

  function Contains(al: AccessList, a: Address, slot: Word): (bool, bool) {
    (a in al.addresses, HasSlot(al, a, slot))
  }

  function AddAddress(al: AccessList, a: Address): AccessList {
    if a in al.addresses then al else al.(addresses := al.addresses[a := -1])
  }

  function AddSlot(al: AccessList, a: Address, slot: Word): AccessList
    requires Sound(al)
  {
    if a !in al.addresses || al.addresses[a] == -1 then
      AccessList(al.addresses[a := |al.slots|], al.slots + [{slot}])
    else
      var i := al.addresses[a];
      al.(slots := al.slots[i := al.slots[i] + {slot}])
  }

  function DeleteAddress(al: AccessList, a: Address): AccessList {
    al.(addresses := al.addresses - {a})
  }

  function DeleteSlot(al: AccessList, a: Address, slot: Word): AccessList
    requires Sound(al)
  {
    if a !in al.addresses || al.addresses[a] == -1 then al
    else var i := al.addresses[a]; al.(slots := al.slots[i := al.slots[i] - {slot}])
  }

  lemma AddAddressDenotes(al: AccessList, s: set<(Address, Word)>, a: Address)
    requires Sound(al) && SlotsAre(al, s)
    ensures Sound(AddAddress(al, a)) && AddAddress(al, a).addresses.Keys == al.addresses.Keys + {a}
    ensures SlotsAre(AddAddress(al, a), s)
  {
    assert a in al.addresses ==> al.addresses.Keys == al.addresses.Keys + {a};
  }

  lemma AddSlotDenotes(al: AccessList, s: set<(Address, Word)>, a: Address, slot: Word)
    requires Sound(al) && SlotsAre(al, s)
    ensures Sound(AddSlot(al, a, slot)) && AddSlot(al, a, slot).addresses.Keys == al.addresses.Keys + {a}
    ensures SlotsAre(AddSlot(al, a, slot), s + {(a, slot)})
  {
    var al' := AddSlot(al, a, slot);
    assert a in al.addresses ==> al.addresses.Keys == al.addresses.Keys + {a};
    forall b: Address, w: Word
      ensures HasSlot(al', b, w) <==> HasSlot(al, b, w) || (b, w) == (a, slot)
    {
    }
  }

  lemma DeleteAddressDenotes(al: AccessList, s: set<(Address, Word)>, a: Address)
    requires Sound(al) && SlotsAre(al, s)
    ensures Sound(DeleteAddress(al, a)) && DeleteAddress(al, a).addresses.Keys == al.addresses.Keys - {a}
    ensures SlotsAre(DeleteAddress(al, a), set p | p in s && p.0 != a)
  {
  }

  lemma DeleteSlotDenotes(al: AccessList, s: set<(Address, Word)>, a: Address, slot: Word)
    requires Sound(al) && SlotsAre(al, s)
    ensures Sound(DeleteSlot(al, a, slot)) && DeleteSlot(al, a, slot).addresses == al.addresses
    ensures SlotsAre(DeleteSlot(al, a, slot), s - {(a, slot)})
  {
    var al' := DeleteSlot(al, a, slot);
    forall b: Address, w: Word
      ensures HasSlot(al', b, w) <==> HasSlot(al, b, w) && (b, w) != (a, slot)
    {
    }
  }

  /* ---- transient storage ---- */

  type Transient = map<Address, map<Word, Word>>

  function TransientAt(t: Transient, a: Address, slot: Word): Word {
    if a in t && slot in t[a] then t[a][slot] else 0
  }

  /** The words a nested map denotes; a slot reset to zero stays in it and denotes nothing. */
  ghost predicate WordsAre(t: Transient, m: map<(Address, Word), Word>) {
    forall a: Address, slot: Word :: TransientAt(t, a, slot) == TransientWord(m, a, slot)
  }

  function SetWord(t: Transient, a: Address, slot: Word, word: Word): Transient {
    t[a := (if a in t then t[a] else map[])[slot := word]]
  }

  lemma SetWordDenotes(t: Transient, m: map<(Address, Word), Word>, a: Address, slot: Word, word: Word)
    requires WordsAre(t, m)
    ensures WordsAre(SetWord(t, a, slot, word), WithTransient(m, a, slot, word))
  {
    forall b: Address, s: Word
      ensures TransientAt(SetWord(t, a, slot, word), b, s) == if (b, s) == (a, slot) then word else TransientAt(t, b, s)
      ensures TransientWord(WithTransient(m, a, slot, word), b, s)
           == if (b, s) == (a, slot) then word else TransientWord(m, b, s)
    {
    }
  }
}
