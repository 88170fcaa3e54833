/** The draft: eight seats dealt three 15-card packs each from a random sample of the cube,
    stored under "seats" by card name, the heuristic that chooses which seat to show next, and
    the per-seat read accessors. */
module Drafts {
  import opened Wrappers
  import opened Sequences
  import opened Cards
  import opened Cubes
  import opened Database

  const NumberOfSeats: nat := 8
  const PackSize: nat := 15
  const PacksPerSeat: nat := 3
  /** The number of cards drawn for a fresh draft: `15 * 3 * numberOfSeats`. */
  const DealSize: nat := PackSize * PacksPerSeat * NumberOfSeats
  /** The path prefix of the image links a seat's card lists are shown under. */
  const ImagePath: string := "/image/"
  const DeckImageKey: string := "deck_image"
  const SideboardImageKey: string := "sideboard_image"

  /** `readTime` is the last time the seat was shown, in milliseconds since the epoch. */
  datatype Seat = Seat(
    drafted: seq<Card>,
    sideboard: seq<Card>,
    currentPack: seq<Card>,
    unopenedPacks: seq<seq<Card>>,
    readTime: Option<int>)

  /** The draft with the store it persists itself to. */
  datatype Draft = Draft(cube: Cube, store: Store, seats: seq<Seat>)

  datatype DraftError =
    | SeatOutOfRange(seat: int)
    | NoSuchSeat(seat: int)
    | UnknownCard(error: CubeError)
    | MalformedSeats

  /** The packs a seat still holds, the current one first. */
  function SeatPacks(s: Seat): seq<seq<Card>>
  {
    [s.currentPack] + s.unopenedPacks
  }

  /** Every card any seat holds, in any of its four lists. */
  ghost predicate Holds(seats: seq<Seat>, c: Card)
  {
    exists i :: 0 <= i < |seats| &&
      (c in seats[i].drafted || c in seats[i].sideboard || c in seats[i].currentPack ||
       exists p :: p in seats[i].unopenedPacks && c in p)
  }

  /** Every card the draft holds is a card of its cube. */
  ghost predicate CardsInCube(cube: Cube, seats: seq<Seat>)
  {
    forall c :: Holds(seats, c) ==> c in cube.indexOf
  }

  // Dealing

  /** A new seat from its group of packs: the first is opened, the others wait. */
  function OpenSeat(packs: seq<seq<Card>>): Seat
    requires |packs| > 0
  {
    Seat([], [], packs[0], packs[1..], None)
  }

  /** The fresh-draft branch of `loadOrCreate`: the sample cut into packs of 15, the packs into
      groups of 3, one group per seat. */
  function DealSeats(sample: seq<Card>): (seats: seq<Seat>)
    ensures forall i :: 0 <= i < |seats| ==>
      seats[i].drafted == [] && seats[i].sideboard == [] && seats[i].readTime == None
  {
    var groups := Chunk(Chunk(sample, PackSize), PacksPerSeat);
    seq(|groups|, i requires 0 <= i < |groups| => OpenSeat(groups[i]))
  }

  /** Dealing loses, duplicates and reorders no card: the seats' packs, read in seat order,
      are the sample. */
  lemma DealKeepsEveryCard(sample: seq<Card>)
    ensures Flatten(Flatten(Map(DealSeats(sample), SeatPacks))) == sample
  {
    var packs := Chunk(sample, PackSize);
    var groups := Chunk(packs, PacksPerSeat);
    var seats := DealSeats(sample);
    assert Map(seats, SeatPacks) == groups by {
      forall i | 0 <= i < |groups|
        ensures SeatPacks(seats[i]) == groups[i]
      {
        assert groups[i] == [groups[i][0]] + groups[i][1..];
      }
    }
    FlattenChunk(packs, PacksPerSeat);
    FlattenChunk(sample, PackSize);
  }

  /** A full sample gives eight seats, each with one open and two unopened packs of 15. */
  lemma DealOfFullSample(sample: seq<Card>)
    requires |sample| == DealSize
    ensures |DealSeats(sample)| == NumberOfSeats
    ensures forall i :: 0 <= i < NumberOfSeats ==>
      var s := DealSeats(sample)[i];
      |s.currentPack| == PackSize && |s.unopenedPacks| == PacksPerSeat - 1 &&
      forall j :: 0 <= j < |s.unopenedPacks| ==> |s.unopenedPacks[j]| == PackSize
  {
    TimesIsProduct(PackSize, PacksPerSeat * NumberOfSeats);
    ChunkOfMultiple(sample, PackSize, PacksPerSeat * NumberOfSeats);
    var packs := Chunk(sample, PackSize);
    TimesIsProduct(PacksPerSeat, NumberOfSeats);
    ChunkOfMultiple(packs, PacksPerSeat, NumberOfSeats);
    var groups := Chunk(packs, PacksPerSeat);
    forall i | 0 <= i < NumberOfSeats
      ensures |groups[i]| == PacksPerSeat && forall j :: 0 <= j < PacksPerSeat ==> |groups[i][j]| == PackSize
    {
      var g := groups[i];
      forall j | 0 <= j < PacksPerSeat
        ensures |g[j]| == PackSize
      {
        var k := Times(PacksPerSeat, i) + j;
        assert g[j] == packs[k];
        var p := packs[k];
      }
    }
  }

  /** A sample drawn from the cube deals only cards of the cube. */
  lemma DealKeepsCardsInCube(cube: Cube, sample: seq<Card>)
    requires Valid(cube) && IsRandomSample(sample, cube, DealSize)
    ensures CardsInCube(cube, DealSeats(sample))
  {
    var seats := DealSeats(sample);
    forall c | Holds(seats, c)
      ensures c in cube.indexOf
    {
      DealKeepsEveryCard(sample);
      HeldCardIsInPacks(seats, c);
      var all := Flatten(Flatten(Map(seats, SeatPacks)));
      assert c in multiset(sample);
      CubeCardsArePositioned(cube, c);
    }
  }

  /** A card in a freshly dealt seat lies in one of its packs, hence in the flattened deal. */
  lemma HeldCardIsInPacks(seats: seq<Seat>, c: Card)
    requires Holds(seats, c)
    requires forall i :: 0 <= i < |seats| ==> seats[i].drafted == [] && seats[i].sideboard == []
    ensures c in Flatten(Flatten(Map(seats, SeatPacks)))
  {
    var i :| 0 <= i < |seats| &&
      (c in seats[i].drafted || c in seats[i].sideboard || c in seats[i].currentPack ||
       exists p :: p in seats[i].unopenedPacks && c in p);
    var packs := SeatPacks(seats[i]);
    var p :| p in packs && c in p;
    InFlatten(packs, p, c);
    assert Map(seats, SeatPacks)[i] == packs;
    InFlattenElement(Map(seats, SeatPacks), packs, c);
  }

  lemma {:induction false} InFlatten<T>(ss: seq<seq<T>>, s: seq<T>, x: T)
    requires s in ss && x in s
    ensures x in Flatten(ss)
  {
    if ss[0] != s {
      InFlatten(ss[1..], s, x);
    }
  }

  lemma InFlattenElement<T>(sss: seq<seq<seq<T>>>, ss: seq<seq<T>>, x: T)
    requires ss in sss && x in Flatten(ss)
    ensures x in Flatten(Flatten(sss))
  {
    FlattenOfFlattened(sss);
    InFlatten(Map(sss, Flatten), Flatten(ss), x);
  }

  // Serialisation

  function SerializeSeat(s: Seat): (r: SerializedSeat)
    ensures |r.drafted| == |s.drafted| && forall i :: 0 <= i < |s.drafted| ==> r.drafted[i] == s.drafted[i].name
    ensures |r.sideboard| == |s.sideboard| && forall i :: 0 <= i < |s.sideboard| ==> r.sideboard[i] == s.sideboard[i].name
    ensures |r.currentPack| == |s.currentPack| &&
      forall i :: 0 <= i < |s.currentPack| ==> r.currentPack[i] == s.currentPack[i].name
    ensures |r.unopenedPacks| == |s.unopenedPacks| &&
      forall i :: 0 <= i < |s.unopenedPacks| ==> r.unopenedPacks[i] == Names(s.unopenedPacks[i])
    ensures r.readTime == s.readTime
  {
    SerializedSeat(Names(s.drafted), Names(s.sideboard), Names(s.currentPack),
      Map(s.unopenedPacks, Names), s.readTime)
  }

  function SerializeSeats(seats: seq<Seat>): (r: seq<SerializedSeat>)
    ensures |r| == |seats| && forall i :: 0 <= i < |seats| ==> r[i] == SerializeSeat(seats[i])
  {
    Map(seats, SerializeSeat)
  }

  /** `seat.readTime ? new Date(seat.readTime) : null`: a stored 0 is falsy and reads as never. */
  function DeserializeReadTime(t: Option<int>): (r: Option<int>)
    ensures r.Some? <==> t.Some? && t.value != 0
    ensures r.Some? ==> r == t
  {
    if t == Some(0) then None else t
  }

  /** `deserializeCards`: every name looked up; the first unknown name is the error. */
  function DeserializeCards(cube: Cube, names: seq<string>): (r: Result<seq<Card>, CubeError>)
    requires NamesKnown(cube)
    ensures r.Success? <==> forall i :: 0 <= i < |names| ==> GetCard(cube, names[i]).Success?
    ensures r.Success? ==> (|r.value| == |names| &&
      forall i :: 0 <= i < |names| ==> r.value[i] == GetCard(cube, names[i]).value)
  {
    var rs := seq(|names|, i requires 0 <= i < |names| => GetCard(cube, names[i]));
    assert forall i :: 0 <= i < |names| ==> rs[i] == GetCard(cube, names[i]);
    Collect(rs)
  }

  /** A failed lookup reports the first name that is not in the cube. */
  lemma DeserializeCardsReportsFirstUnknown(cube: Cube, names: seq<string>)
    requires NamesKnown(cube) && DeserializeCards(cube, names).Failure?
    ensures exists i :: (0 <= i < |names| && DeserializeCards(cube, names).error == NotInCube(names[i]) &&
      GetCard(cube, names[i]).Failure? &&
      forall j :: 0 <= j < i ==> GetCard(cube, names[j]).Success?)
  {
    var rs := seq(|names|, i requires 0 <= i < |names| => GetCard(cube, names[i]));
    CollectReportsFirstFailure(rs);
    assert forall i :: 0 <= i < |names| ==> rs[i] == GetCard(cube, names[i]);
    assert DeserializeCards(cube, names) == Collect(rs);
    var i :| 0 <= i < |rs| && rs[i].Failure? && Collect(rs).error == rs[i].error &&
      forall j :: 0 <= j < i ==> rs[j].Success?;
    assert DeserializeCards(cube, names).error == NotInCube(names[i]);
  }

  function DeserializePacks(cube: Cube, packs: seq<seq<string>>): (r: Result<seq<seq<Card>>, CubeError>)
    requires NamesKnown(cube)
    ensures r.Success? <==> forall i :: 0 <= i < |packs| ==> DeserializeCards(cube, packs[i]).Success?
    ensures r.Success? ==> (|r.value| == |packs| &&
      forall i :: 0 <= i < |packs| ==> r.value[i] == DeserializeCards(cube, packs[i]).value)
  {
    var rs := seq(|packs|, i requires 0 <= i < |packs| => DeserializeCards(cube, packs[i]));
    assert forall i :: 0 <= i < |packs| ==> rs[i] == DeserializeCards(cube, packs[i]);
    Collect(rs)
  }

  /** One stored seat back into a seat, its lists resolved in the order ddraft reads them. */
  function DeserializeSeat(cube: Cube, s: SerializedSeat): (r: Result<Seat, CubeError>)
    requires NamesKnown(cube)
    ensures r.Success? <==>
      (&& DeserializeCards(cube, s.drafted).Success? && DeserializeCards(cube, s.sideboard).Success?
       && DeserializeCards(cube, s.currentPack).Success? && DeserializePacks(cube, s.unopenedPacks).Success?)
    ensures r.Success? ==> r.value.readTime == DeserializeReadTime(s.readTime)
    ensures DeserializeCards(cube, s.drafted).Failure? ==> r == Failure(DeserializeCards(cube, s.drafted).error)
    ensures DeserializeCards(cube, s.drafted).Success? && DeserializeCards(cube, s.sideboard).Failure? ==>
      r == Failure(DeserializeCards(cube, s.sideboard).error)
    ensures && DeserializeCards(cube, s.drafted).Success? && DeserializeCards(cube, s.sideboard).Success?
            && DeserializeCards(cube, s.currentPack).Failure? ==>
      r == Failure(DeserializeCards(cube, s.currentPack).error)
    ensures && DeserializeCards(cube, s.drafted).Success? && DeserializeCards(cube, s.sideboard).Success?
            && DeserializeCards(cube, s.currentPack).Success? && DeserializePacks(cube, s.unopenedPacks).Failure? ==>
      r == Failure(DeserializePacks(cube, s.unopenedPacks).error)
  {
    match (DeserializeCards(cube, s.drafted), DeserializeCards(cube, s.sideboard),
           DeserializeCards(cube, s.currentPack), DeserializePacks(cube, s.unopenedPacks))
    case (Success(d), Success(b), Success(p), Success(u)) =>
      Success(Seat(d, b, p, u, DeserializeReadTime(s.readTime)))
    case (Failure(e), _, _, _) => Failure(e)
    case (_, Failure(e), _, _) => Failure(e)
    case (_, _, Failure(e), _) => Failure(e)
    case (_, _, _, Failure(e)) => Failure(e)
  }

  function DeserializeSeats(cube: Cube, ss: seq<SerializedSeat>): (r: Result<seq<Seat>, CubeError>)
    requires NamesKnown(cube)
    ensures r.Success? <==> forall i :: 0 <= i < |ss| ==> DeserializeSeat(cube, ss[i]).Success?
    ensures r.Success? ==> (|r.value| == |ss| &&
      forall i :: 0 <= i < |ss| ==> r.value[i] == DeserializeSeat(cube, ss[i]).value)
  {
    var rs := seq(|ss|, i requires 0 <= i < |ss| => DeserializeSeat(cube, ss[i]));
    assert forall i :: 0 <= i < |ss| ==> rs[i] == DeserializeSeat(cube, ss[i]);
    Collect(rs)
  }

  /** Every card a name lookup returns is a card of the cube. */
  lemma DeserializedCardsInCube(cube: Cube, names: seq<string>)
    requires NamesKnown(cube) && PositionsKnown(cube)
    requires DeserializeCards(cube, names).Success?
    ensures forall c :: c in DeserializeCards(cube, names).value ==> c in cube.indexOf
  {
    var cs := DeserializeCards(cube, names).value;
    forall c | c in cs
      ensures c in cube.indexOf
    {
      var i :| 0 <= i < |cs| && cs[i] == c;
      var g := GetCard(cube, names[i]);
      assert cube.cards[g.value.index] == c;
    }
  }

  /** A seat rebuilt from the store holds only cards of the cube. */
  lemma DeserializedSeatInCube(cube: Cube, s: SerializedSeat)
    requires NamesKnown(cube) && PositionsKnown(cube)
    requires DeserializeSeat(cube, s).Success?
    ensures CardsInCube(cube, [DeserializeSeat(cube, s).value])
  {
    var seat := DeserializeSeat(cube, s).value;
    DeserializedCardsInCube(cube, s.drafted);
    DeserializedCardsInCube(cube, s.sideboard);
    DeserializedCardsInCube(cube, s.currentPack);
    var packs := DeserializePacks(cube, s.unopenedPacks).value;
    forall p | p in seat.unopenedPacks
      ensures forall c :: c in p ==> c in cube.indexOf
    {
      var j :| 0 <= j < |packs| && packs[j] == p;
      DeserializedCardsInCube(cube, s.unopenedPacks[j]);
    }
    forall c | Holds([seat], c)
      ensures c in cube.indexOf
    {
      assert [seat][0] == seat;
    }
  }

  /** A draft rebuilt from stored seats holds only cards of the cube, as a fresh deal does, so its
      seats' image links can be computed. */
  lemma LoadedSeatsInCube(cube: Cube, store: Store, sample: seq<Card>)
    requires NamesKnown(cube) && PositionsKnown(cube)
    requires SeatsKey in store && LoadOrCreate(cube, store, sample).Success?
    ensures CardsInCube(cube, LoadOrCreate(cube, store, sample).value.seats)
  {
    var ss := store[SeatsKey].seats;
    assert LoadOrCreate(cube, store, sample).value.seats == DeserializeSeats(cube, ss).value;
    DeserializedSeatsInCube(cube, ss);
  }

  lemma DeserializedSeatsInCube(cube: Cube, ss: seq<SerializedSeat>)
    requires NamesKnown(cube) && PositionsKnown(cube)
    requires DeserializeSeats(cube, ss).Success?
    ensures CardsInCube(cube, DeserializeSeats(cube, ss).value)
  {
    var seats := DeserializeSeats(cube, ss).value;
    forall c | Holds(seats, c)
      ensures c in cube.indexOf
    {
      var i :| 0 <= i < |seats| &&
        (c in seats[i].drafted || c in seats[i].sideboard || c in seats[i].currentPack ||
         exists p :: p in seats[i].unopenedPacks && c in p);
      DeserializedSeatInCube(cube, ss[i]);
      assert Holds([seats[i]], c) by {
        assert [seats[i]][0] == seats[i];
      }
    }
  }

  /** A card survives a save and load when looking up its name finds it again. */
  predicate Resolves(cube: Cube, c: Card)
    requires NamesKnown(cube)
  {
    GetCard(cube, c.name) == Success(c)
  }

  ghost predicate SeatResolves(cube: Cube, s: Seat)
    requires NamesKnown(cube)
  {
    && (forall c :: c in s.drafted ==> Resolves(cube, c))
    && (forall c :: c in s.sideboard ==> Resolves(cube, c))
    && (forall c :: c in s.currentPack ==> Resolves(cube, c))
    && (forall p, c :: p in s.unopenedPacks && c in p ==> Resolves(cube, c))
  }

  lemma CardsRoundTrip(cube: Cube, cards: seq<Card>)
    requires NamesKnown(cube)
    requires forall c :: c in cards ==> Resolves(cube, c)
    ensures DeserializeCards(cube, Names(cards)) == Success(cards)
  {
    var names := Names(cards);
    forall i | 0 <= i < |cards|
      ensures GetCard(cube, names[i]) == Success(cards[i])
    {
      assert Resolves(cube, cards[i]);
    }
    var r := DeserializeCards(cube, names);
    assert r.value == cards;
  }

  /** Saving and loading a seat gives it back, unless it was last shown at time 0. */
  lemma SeatRoundTrip(cube: Cube, s: Seat)
    requires NamesKnown(cube) && SeatResolves(cube, s)
    requires s.readTime != Some(0)
    ensures DeserializeSeat(cube, SerializeSeat(s)) == Success(s)
  {
    CardsRoundTrip(cube, s.drafted);
    CardsRoundTrip(cube, s.sideboard);
    CardsRoundTrip(cube, s.currentPack);
    var packs := Map(s.unopenedPacks, Names);
    forall i | 0 <= i < |packs|
      ensures DeserializeCards(cube, packs[i]) == Success(s.unopenedPacks[i])
    {
      CardsRoundTrip(cube, s.unopenedPacks[i]);
    }
    var unopened := DeserializePacks(cube, packs);
    assert unopened.Success?;
    assert unopened.value == s.unopenedPacks;
  }

  /** Loading stored seats and saving them again writes back what was stored, except that a
      stored time of 0 is written back as never. */
  lemma StoredSeatRoundTrip(cube: Cube, stored: SerializedSeat)
    requires NamesKnown(cube) && DeserializeSeat(cube, stored).Success?
    ensures SerializeSeat(DeserializeSeat(cube, stored).value) ==
      stored.(readTime := DeserializeReadTime(stored.readTime))
  {
    var s := DeserializeSeat(cube, stored).value;
    NamesRoundTrip(cube, stored.drafted);
    NamesRoundTrip(cube, stored.sideboard);
    NamesRoundTrip(cube, stored.currentPack);
    forall i | 0 <= i < |stored.unopenedPacks|
      ensures Names(s.unopenedPacks[i]) == stored.unopenedPacks[i]
    {
      NamesRoundTrip(cube, stored.unopenedPacks[i]);
    }
  }

  lemma NamesRoundTrip(cube: Cube, names: seq<string>)
    requires NamesKnown(cube) && DeserializeCards(cube, names).Success?
    ensures Names(DeserializeCards(cube, names).value) == names
  {
  }

  // Loading and saving

  /** `save`: the seats, by card name, under "seats". */
  function Save(d: Draft): (r: Draft)
    ensures r.cube == d.cube && r.seats == d.seats
    ensures Get(r.store, SeatsKey) == Some(SeatList(SerializeSeats(d.seats)))
    ensures forall k :: k != SeatsKey ==> Get(r.store, k) == Get(d.store, k)
  {
    d.(store := Set(d.store, SeatsKey, SeatList(SerializeSeats(d.seats))))
  }

  /** `loadOrCreate`: with no seats stored, deal a fresh draft from `sample` (the random draw of
      `getRandomCards(360)`) and save it; otherwise rebuild the stored seats. */
  function LoadOrCreate(cube: Cube, store: Store, sample: seq<Card>): (r: Result<Draft, DraftError>)
    requires NamesKnown(cube)
    ensures SeatsKey !in store ==> r == Success(Save(Draft(cube, store, DealSeats(sample))))
    ensures SeatsKey in store ==>
      (r.Success? <==> store[SeatsKey].SeatList? && DeserializeSeats(cube, store[SeatsKey].seats).Success?)
    ensures SeatsKey in store && r.Success? ==>
      r.value.store == store && r.value.cube == cube &&
      SerializeSeats(r.value.seats) == StoredForm(store[SeatsKey].seats)
    ensures SeatsKey in store && r.Success? ==>
      store[SeatsKey].SeatList? && r.value.seats == DeserializeSeats(cube, store[SeatsKey].seats).value
  {
    match Get(store, SeatsKey)
    case None => Success(Save(Draft(cube, store, DealSeats(sample))))
    case Some(SeatList(ss)) =>
      (match DeserializeSeats(cube, ss)
       case Failure(e) => Failure(UnknownCard(e))
       case Success(seats) =>
         StoredSeatsRoundTrip(cube, ss);
         Success(Draft(cube, store, seats)))
    case Some(_) => Failure(MalformedSeats)
  }

  /** What loading and saving stored seats writes back: a time of 0 becomes never. */
  function StoredForm(ss: seq<SerializedSeat>): seq<SerializedSeat>
  {
    Map(ss, (s: SerializedSeat) => s.(readTime := DeserializeReadTime(s.readTime)))
  }

  lemma StoredSeatsRoundTrip(cube: Cube, ss: seq<SerializedSeat>)
    requires NamesKnown(cube) && DeserializeSeats(cube, ss).Success?
    ensures SerializeSeats(DeserializeSeats(cube, ss).value) == StoredForm(ss)
  {
    forall i | 0 <= i < |ss|
      ensures SerializeSeat(DeserializeSeats(cube, ss).value[i]) == StoredForm(ss)[i]
    {
      StoredSeatRoundTrip(cube, ss[i]);
    }
  }

  /** Loading what was saved restores the draft, provided every card resolves by name and no
      seat was last shown at time 0. */
  lemma LoadAfterSave(d: Draft, sample: seq<Card>)
    requires NamesKnown(d.cube)
    requires forall i :: 0 <= i < |d.seats| ==> SeatResolves(d.cube, d.seats[i])
    requires forall i :: 0 <= i < |d.seats| ==> d.seats[i].readTime != Some(0)
    ensures LoadOrCreate(d.cube, Save(d).store, sample) == Success(Save(d))
  {
    var ss := SerializeSeats(d.seats);
    forall i | 0 <= i < |ss|
      ensures DeserializeSeat(d.cube, ss[i]) == Success(d.seats[i])
    {
      SeatRoundTrip(d.cube, d.seats[i]);
    }
    assert DeserializeSeats(d.cube, ss).value == d.seats;
  }

  /** In a cube whose names are distinct every card resolves, so every seat does. */
  lemma DistinctNamesResolve(cube: Cube, s: Seat)
    requires Valid(cube) && UniqueNames(cube.cards)
    requires CardsInCube(cube, [s])
    ensures SeatResolves(cube, s)
  {
    forall c | c in s.drafted || c in s.sideboard || c in s.currentPack ||
      exists p :: p in s.unopenedPacks && c in p
      ensures Resolves(cube, c)
    {
      assert [s][0] == s;
      assert Holds([s], c);
      var i := c.index;
      assert cube.cards[i] == c;
      GetCardFindsEveryCard(cube, i);
    }
  }

  // Choosing the seat to show

  /** The picks a seat has made. */
  function Picks(s: Seat): nat
  {
    |s.drafted| + |s.sideboard|
  }

  /** One step of the `reduce` in `seatToShow`: of the best seat so far and the next one, the one
      with fewer picks; on a tie the best seat stays if it was never shown or was shown strictly
      earlier than the next one. */
  function Better(seats: seq<Seat>, best: nat, next: nat): (w: nat)
    requires best < |seats| && next < |seats|
    ensures w == best || w == next
    ensures Picks(seats[w]) <= Picks(seats[best]) && Picks(seats[w]) <= Picks(seats[next])
  {
    if Picks(seats[best]) < Picks(seats[next]) then best
    else if Picks(seats[next]) < Picks(seats[best]) then next
    else match seats[best].readTime
      case Some(tb) =>
        if seats[next].readTime.Some? && tb < seats[next].readTime.value then best else next
      case None => best
  }

  /** The reduce over the first `k` seats. */
  function Reduce(seats: seq<Seat>, k: nat): (w: nat)
    requires 0 < k <= |seats|
    ensures w < k
  {
    if k == 1 then 0 else Better(seats, Reduce(seats, k - 1), k - 1)
  }

  /** The order the reduce ranks seats by: `a` is preferred to `b` when it has fewer picks; on
      equal picks a never-shown seat is preferred to a shown one, of two never-shown seats the
      earlier, and of two shown seats the one shown earlier, the later seat on equal times. */
  predicate Precedes(seats: seq<Seat>, a: nat, b: nat)
    requires a < |seats| && b < |seats|
  {
    var pa, pb := Picks(seats[a]), Picks(seats[b]);
    pa < pb || (pa == pb &&
      match (seats[a].readTime, seats[b].readTime)
      case (None, None) => a < b
      case (None, Some(_)) => true
      case (Some(_), None) => false
      case (Some(ta), Some(tb)) => ta < tb || (ta == tb && a > b))
  }

  lemma PrecedesTransitive(seats: seq<Seat>, a: nat, b: nat, c: nat)
    requires a < |seats| && b < |seats| && c < |seats|
    requires Precedes(seats, a, b) && Precedes(seats, b, c)
    ensures Precedes(seats, a, c)
  {
  }

  lemma PrecedesAsymmetric(seats: seq<Seat>, a: nat, b: nat)
    requires a < |seats| && b < |seats| && Precedes(seats, a, b)
    ensures !Precedes(seats, b, a)
  {
  }

  /** The seat to show among the first `k`: the one preferred to every other. */
  ghost predicate ShownAmong(seats: seq<Seat>, k: nat, w: nat)
    requires k <= |seats|
  {
    w < k && forall j :: 0 <= j < k && j != w ==> Precedes(seats, w, j)
  }

  /** One step of the reduce keeps the preferred of the two seats. */
  lemma BetterIsPreferred(seats: seq<Seat>, best: nat, next: nat)
    requires best < next < |seats|
    ensures Better(seats, best, next) == best ==> Precedes(seats, best, next)
    ensures Better(seats, best, next) == next ==> Precedes(seats, next, best)
  {
  }

  /** The reduce chooses the seat preferred to every other. */
  lemma {:induction false} ReduceIsShownAmong(seats: seq<Seat>, k: nat)
    requires 0 < k <= |seats|
    ensures ShownAmong(seats, k, Reduce(seats, k))
  {
    if k > 1 {
      ReduceIsShownAmong(seats, k - 1);
      var w, n := Reduce(seats, k - 1), k - 1;
      BetterIsPreferred(seats, w, n);
      if Better(seats, w, n) == n {
        forall j | 0 <= j < k && j != n
          ensures Precedes(seats, n, j)
        {
          if j != w {
            PrecedesTransitive(seats, n, w, j);
          }
        }
      }
    }
  }

  /** At most one seat is preferred to every other, so the description determines the choice. */
  lemma ShownAmongIsUnique(seats: seq<Seat>, k: nat, w1: nat, w2: nat)
    requires k <= |seats| && ShownAmong(seats, k, w1) && ShownAmong(seats, k, w2)
    ensures w1 == w2
  {
    if w1 != w2 {
      PrecedesAsymmetric(seats, w1, w2);
    }
  }

  /** The seat shown has the fewest picks, and if any seat with that few picks was never shown,
      the one shown is such a seat. */
  lemma ShownSeatIsBehind(seats: seq<Seat>, k: nat, w: nat, j: nat)
    requires k <= |seats| && ShownAmong(seats, k, w) && j < k
    ensures Picks(seats[w]) <= Picks(seats[j])
    ensures Picks(seats[j]) == Picks(seats[w]) && seats[j].readTime.None? ==> seats[w].readTime.None?
  {
    if j != w {
      assert Precedes(seats, w, j);
    }
  }

  /** `seatToShow`: the chosen seat is stamped with the current time `now` and the draft saved.
      `None` where ddraft's `reduce` throws, on a draft without seats. */
  function SeatToShow(d: Draft, now: int): (r: Option<(nat, Draft)>)
    ensures r.Some? <==> |d.seats| > 0
    ensures r.Some? ==> var (w, d') := r.value;
      && ShownAmong(d.seats, |d.seats|, w)
      && |d'.seats| == |d.seats| && d'.cube == d.cube
      && d'.seats[w] == d.seats[w].(readTime := Some(now))
      && (forall i :: 0 <= i < |d.seats| && i != w ==> d'.seats[i] == d.seats[i])
      && Get(d'.store, SeatsKey) == Some(SeatList(SerializeSeats(d'.seats)))
      && (forall k :: k != SeatsKey ==> Get(d'.store, k) == Get(d.store, k))
  {
    if |d.seats| == 0 then None
    else
      var w := Reduce(d.seats, |d.seats|);
      ReduceIsShownAmong(d.seats, |d.seats|);
      var shown := d.seats[w := d.seats[w].(readTime := Some(now))];
      Some((w, Save(d.(seats := shown))))
  }

  // Read accessors

  /** `checkSeatNumber` and the seat it admits; a seat number the stored seats do not reach reads
      `undefined` in ddraft and throws, here `NoSuchSeat`. */
  function CheckSeat(d: Draft, index: int): (r: Result<Seat, DraftError>)
    ensures (index < 0 || index >= NumberOfSeats) <==> r == Failure(SeatOutOfRange(index))
    ensures r.Success? <==> 0 <= index < NumberOfSeats && index < |d.seats|
    ensures r.Success? ==> r.value == d.seats[index]
  {
    if index < 0 || index >= NumberOfSeats then Failure(SeatOutOfRange(index))
    else if index >= |d.seats| then Failure(NoSuchSeat(index))
    else Success(d.seats[index])
  }

  /** `getPack`. */
  function GetPack(d: Draft, index: int): (r: Result<seq<Card>, DraftError>)
    ensures r.Success? <==> CheckSeat(d, index).Success?
    ensures r.Success? ==> r.value == d.seats[index].currentPack
  {
    match CheckSeat(d, index)
    case Failure(e) => Failure(e)
    case Success(s) => Success(s.currentPack)
  }

  /** `packNumber`: which of the three packs the seat is on, from how many are still unopened. */
  function PackNumber(d: Draft, index: int): (r: Result<int, DraftError>)
    ensures r.Success? <==> CheckSeat(d, index).Success?
    ensures r.Success? ==> r.value + |d.seats[index].unopenedPacks| == PacksPerSeat
  {
    match CheckSeat(d, index)
    case Failure(e) => Failure(e)
    case Success(s) => Success(PacksPerSeat - |s.unopenedPacks|)
  }

  /** In a freshly dealt full draft every seat is on its first pack of 15 cards. */
  lemma FreshDraftOnFirstPack(cube: Cube, store: Store, sample: seq<Card>, index: int)
    requires |sample| == DealSize && 0 <= index < NumberOfSeats
    ensures var d := Draft(cube, store, DealSeats(sample));
      PackNumber(d, index) == Success(1) && GetPack(d, index).Success? &&
      |GetPack(d, index).value| == PackSize
  {
    DealOfFullSample(sample);
  }

  /** `seatImages`: links to the pictures of the seat's drafted cards and of its sideboard, each
      present only when that list is non-empty. `None` for a seat number with no seat, where the
      source reads a property of `undefined`. */
  function SeatImages(d: Draft, index: int): (r: Option<map<string, string>>)
    requires CardsInCube(d.cube, d.seats)
    ensures r.Some? <==> 0 <= index < |d.seats|
    ensures r.Some? ==> r.value.Keys <= {DeckImageKey, SideboardImageKey}
    ensures r.Some? ==> (DeckImageKey in r.value <==> |d.seats[index].drafted| > 0)
    ensures r.Some? ==> (SideboardImageKey in r.value <==> |d.seats[index].sideboard| > 0)
  {
    if index < 0 || index >= |d.seats| then None
    else
      var s := d.seats[index];
      SeatCardsInCube(d, index);
      var deck: map<string, string> :=
        if |s.drafted| > 0 then map[DeckImageKey := ImagePath + EncodeCards(d.cube, s.drafted)]
        else map[];
      Some(if |s.sideboard| > 0
        then deck[SideboardImageKey := ImagePath + EncodeCards(d.cube, s.sideboard)]
        else deck)
  }

  lemma SeatCardsInCube(d: Draft, index: nat)
    requires CardsInCube(d.cube, d.seats) && index < |d.seats|
    ensures forall c :: c in d.seats[index].drafted ==> c in d.cube.indexOf
    ensures forall c :: c in d.seats[index].sideboard ==> c in d.cube.indexOf
  {
    forall c | c in d.seats[index].drafted || c in d.seats[index].sideboard
      ensures c in d.cube.indexOf
    {
      assert Holds(d.seats, c);
    }
  }

  /** Each image link decodes back to exactly the list it shows. */
  lemma SeatImagesShowSeat(d: Draft, index: nat)
    requires Valid(d.cube) && CardsInCube(d.cube, d.seats) && index < |d.seats|
    ensures var links := SeatImages(d, index).value;
      && (DeckImageKey in links ==>
            |ImagePath| <= |links[DeckImageKey]| &&
            links[DeckImageKey][..|ImagePath|] == ImagePath &&
            DecodeCards(d.cube, links[DeckImageKey][|ImagePath|..]) == Some(Present(d.seats[index].drafted)))
      && (SideboardImageKey in links ==>
            |ImagePath| <= |links[SideboardImageKey]| &&
            links[SideboardImageKey][..|ImagePath|] == ImagePath &&
            DecodeCards(d.cube, links[SideboardImageKey][|ImagePath|..]) == Some(Present(d.seats[index].sideboard)))
  {
    var s := d.seats[index];
    SeatCardsInCube(d, index);
    var links := SeatImages(d, index).value;
    if DeckImageKey in links {
      var token := EncodeCards(d.cube, s.drafted);
      assert links[DeckImageKey] == ImagePath + token;
      assert (ImagePath + token)[|ImagePath|..] == token;
      DecodeCardsEncodeCards(d.cube, s.drafted);
    }
    if SideboardImageKey in links {
      var token := EncodeCards(d.cube, s.sideboard);
      assert links[SideboardImageKey] == ImagePath + token;
      assert (ImagePath + token)[|ImagePath|..] == token;
      DecodeCardsEncodeCards(d.cube, s.sideboard);
    }
  }
}
