/**
  The weather service's in-memory state and its request handlers: the user
  registry (`users`), the per-user city tables with their cached readings
  (`user_weather_data`), the background pollers that `add_city` starts, and the
  single cache write a poller makes on each tick.
 */
module Weather {
  import opened Base
  import opened PyDict

  /** The opaque token `register_user` hands out (a UUID rendered as text). */
  type UserId = string

  /** The body of `/add_city/`: a city name and its coordinates. */
  datatype City = City(name: string, latitude: real, longitude: real)

  /** One poll result: temperature and wind speed, and a pressure that may be absent. */
  datatype Reading = Reading(temperature: real, windspeed: real, pressure: Option<real>)

  /** A city slot's cached value: the `{}` placeholder written by `add_city`, or the last reading. */
  datatype Entry = Empty | Polled(reading: Reading)

  /** The body of `/weather_at_time/`; `time` is accepted and never used. */
  datatype WeatherRequest = WeatherRequest(city: string, time: string, parameters: seq<string>)

  /** A value in a `/weather_at_time/` response: a number, or Python's `None`. */
  datatype FieldValue = Num(x: real) | Null

  /** A background polling task, bound to one city of one user when `add_city` starts it. */
  datatype Poller = Poller(user: UserId, city: string, latitude: real, longitude: real)

  /** The `HTTPException`s the handlers raise. */
  datatype Error = UserNotFound | CityNotFound | DuplicateCity | UnknownParameter(name: string)

  datatype Result<T> = Ok(value: T) | Err(error: Error)

  /** The HTTP status each error is raised with. */
  function StatusCode(e: Error): (code: int)
    ensures code == 404 <==> e.UserNotFound? || e.CityNotFound?
    ensures code == 400 <==> e.DuplicateCity? || e.UnknownParameter?
  {
    match e
    case UserNotFound => 404
    case CityNotFound => 404
    case DuplicateCity => 400
    case UnknownParameter(_) => 400
  }

  /** The attributes a stored reading has. */
  const FieldNames: set<string> := {"temperature", "windspeed", "pressure"}

  /**
    `hasattr`/`getattr` on a stored entry: a reading has exactly the three
    fields of `FieldNames`; the `{}` placeholder has none of them.
   */
  function Field(e: Entry, name: string): (r: Option<FieldValue>)
    ensures r.Some? <==> e.Polled? && name in FieldNames
    ensures r.Some? && name == "temperature" ==> r.value == Num(e.reading.temperature)
    ensures r.Some? && name == "windspeed" ==> r.value == Num(e.reading.windspeed)
    ensures r.Some? && name == "pressure" ==>
      r.value == (if e.reading.pressure.Some? then Num(e.reading.pressure.value) else Null)
  {
    match e
    case Empty => None
    case Polled(reading) =>
      if name == "temperature" then Some(Num(reading.temperature))
      else if name == "windspeed" then Some(Num(reading.windspeed))
      else if name == "pressure" then
        Some(match reading.pressure case Some(p) => Num(p) case None => Null)
      else None
  }

  /** The (user, city) slots that exist in a set of city tables. */
  ghost function SlotsOf(cs: map<UserId, Dict<string, Entry>>): set<(UserId, string)>
  {
    set u, c | u in cs && c in Keys(cs[u]) :: (u, c)
  }

  /** The (user, city) slots a list of pollers writes to. */
  ghost function PollerSlotsOf(ps: seq<Poller>): set<(UserId, string)>
  {
    set p | p in ps :: (p.user, p.city)
  }

  /** Giving a user a table with one more name adds exactly that slot. */
  lemma SlotsAfterAppend(cs: map<UserId, Dict<string, Entry>>, id: UserId, t: Dict<string, Entry>, name: string)
    requires id in cs
    requires Keys(t) == Keys(cs[id]) + [name]
    ensures SlotsOf(cs[id := t]) == SlotsOf(cs) + {(id, name)}
  {
  }

  /** Giving a user a table with the same names keeps the slots. */
  lemma SlotsSameKeys(cs: map<UserId, Dict<string, Entry>>, id: UserId, t: Dict<string, Entry>)
    requires id in cs
    requires Keys(t) == Keys(cs[id])
    ensures SlotsOf(cs[id := t]) == SlotsOf(cs)
  {
  }

  /**
    The state invariant: `users` and `user_weather_data` have the same users,
    no user has a city name twice, and the started pollers are bound one to
    one to the existing slots.
   */
  ghost predicate Consistent(users: map<UserId, string>, cs: map<UserId, Dict<string, Entry>>, ps: seq<Poller>)
  {
    && users.Keys == cs.Keys
    && (forall u :: u in cs ==> Distinct(Keys(cs[u])))
    && PollerSlotsOf(ps) == SlotsOf(cs)
    && (forall i, j :: 0 <= i < j < |ps| ==> (ps[i].user, ps[i].city) != (ps[j].user, ps[j].city))
  }

  /** Starting one more poller adds exactly its slot to the pollers' slots. */
  lemma PollerSlotsAfterAppend(ps: seq<Poller>, p: Poller)
    ensures PollerSlotsOf(ps + [p]) == PollerSlotsOf(ps) + {(p.user, p.city)}
  {
  }

  /** Assigning into one user's table keeps every user's names distinct. */
  lemma TablesStayDistinct(cs: map<UserId, Dict<string, Entry>>, id: UserId, name: string, e: Entry)
    requires forall u :: u in cs ==> Distinct(Keys(cs[u]))
    requires id in cs
    ensures var cs' := cs[id := Put(cs[id], name, e)];
      forall u :: u in cs' ==> Distinct(Keys(cs'[u]))
  {
    PutKeepsDistinct(cs[id], name, e);
  }

  /** A poller for a new slot is bound to no slot an earlier poller has. */
  lemma NewPollerIsUnique(cs: map<UserId, Dict<string, Entry>>, ps: seq<Poller>, id: UserId, city: City)
    requires PollerSlotsOf(ps) == SlotsOf(cs)
    requires forall i, j :: 0 <= i < j < |ps| ==> (ps[i].user, ps[i].city) != (ps[j].user, ps[j].city)
    requires id in cs && city.name !in Keys(cs[id])
    ensures var ps' := ps + [Poller(id, city.name, city.latitude, city.longitude)];
      forall i, j :: 0 <= i < j < |ps'| ==> (ps'[i].user, ps'[i].city) != (ps'[j].user, ps'[j].city)
  {
    forall i | 0 <= i < |ps|
      ensures (ps[i].user, ps[i].city) != (id, city.name)
    {
      assert ps[i] in ps;
      assert (ps[i].user, ps[i].city) in SlotsOf(cs);
    }
  }

  /** A successful `add_city` step keeps the invariant. */
  lemma AddKeepsConsistent(users: map<UserId, string>, cs: map<UserId, Dict<string, Entry>>, ps: seq<Poller>,
                           id: UserId, city: City)
    requires Consistent(users, cs, ps)
    requires id in cs && city.name !in Keys(cs[id])
    ensures Consistent(users, cs[id := Put(cs[id], city.name, Empty)],
                       ps + [Poller(id, city.name, city.latitude, city.longitude)])
  {
    var t := Put(cs[id], city.name, Empty);
    var poller := Poller(id, city.name, city.latitude, city.longitude);
    TablesStayDistinct(cs, id, city.name, Empty);
    PutAbsentAppends(cs[id], city.name, Empty);
    SlotsAfterAppend(cs, id, t, city.name);
    PollerSlotsAfterAppend(ps, poller);
    NewPollerIsUnique(cs, ps, id, city);
  }

  /** A poller's write to its own slot keeps the invariant. */
  lemma PollKeepsConsistent(users: map<UserId, string>, cs: map<UserId, Dict<string, Entry>>, ps: seq<Poller>,
                            p: Poller, reading: Reading)
    requires Consistent(users, cs, ps)
    requires p in ps
    ensures p.user in cs && p.city in Keys(cs[p.user])
    ensures Consistent(users, cs[p.user := Put(cs[p.user], p.city, Polled(reading))], ps)
  {
    assert (p.user, p.city) in PollerSlotsOf(ps);
    PutPresentKeepsKeys(cs[p.user], p.city, Polled(reading));
    SlotsSameKeys(cs, p.user, Put(cs[p.user], p.city, Polled(reading)));
  }

  class Registry {
    /** `users`: user id to username. */
    var users: map<UserId, string>
    /** `user_weather_data`: user id to that user's city table, in insertion order. */
    var cities: map<UserId, Dict<string, Entry>>
    /** Every task `add_city` has started, in the order they were started. */
    var pollers: seq<Poller>

    /**
      The invariant every handler keeps: both dictionaries have the same users,
      no user has a city name twice, and each slot has exactly one poller.
     */
    ghost predicate Valid()
      reads this
    {
      Consistent(users, cities, pollers)
    }

    /** The state at process start: both dictionaries empty, no poller running. */
    constructor ()
      ensures Valid()
      ensures users == map[] && cities == map[] && pollers == []
    {
      users := map[];
      cities := map[];
      pollers := [];
    }

    /** `GET /cities/{user_id}/`. */
    function ListCities(id: UserId): (r: Result<seq<string>>)
      reads this
      ensures r.Err? <==> id !in cities
      ensures r.Err? ==> r.error == UserNotFound
      ensures r.Ok? ==> forall c :: c in r.value <==> Get(cities[id], c).Some?
      ensures r.Ok? && Valid() ==> Distinct(r.value)
    {
      if id !in cities then Err(UserNotFound) else Ok(Keys(cities[id]))
    }

    /** `GET /current_weather/{user_id}/{city_name}`. */
    function CurrentWeather(id: UserId, cityName: string): (r: Result<Entry>)
      reads this
      ensures id !in cities ==> r == Err(UserNotFound)
      ensures id in cities ==> (r.Ok? <==> cityName in Keys(cities[id]))
      ensures id in cities && r.Err? ==> r.error == CityNotFound
      ensures r.Ok? ==> (cityName, r.value) in cities[id]
    {
      if id !in cities then Err(UserNotFound)
      else match Get(cities[id], cityName)
        case None => Err(CityNotFound)
        case Some(e) => Ok(e)
    }

    /**
      `POST /register/` with the id that `uuid.uuid4()` would have produced:
      stores the username and an empty city table under the new id.
     */
    method RegisterUser(id: UserId, username: string) returns (r: UserId)
      requires Valid()
      requires id !in users
      modifies this
      ensures Valid()
      ensures r == id
      ensures users == old(users)[id := username]
      ensures cities == old(cities)[id := []]
      ensures pollers == old(pollers)
      ensures ListCities(id) == Ok([])
      ensures forall u :: u != id ==> ListCities(u) == old(ListCities(u))
    {
      users := users[id := username];
      cities := cities[id := []];
      assert SlotsOf(cities) == SlotsOf(old(cities));
      r := id;
    }

    /**
      `POST /add_city/{user_id}/`: 404 for an unknown user, 400 for a name the
      user already has; otherwise an empty slot is appended and a poller bound
      to it is started.
     */
    method AddCity(id: UserId, city: City) returns (r: Result<()>)
      requires Valid()
      modifies this
      ensures Valid()
      ensures users == old(users)
      ensures id !in old(cities) ==> r == Err(UserNotFound)
      ensures id in old(cities) && city.name in Keys(old(cities)[id]) ==> r == Err(DuplicateCity)
      ensures r.Err? ==> cities == old(cities) && pollers == old(pollers)
      ensures r.Ok? <==> id in old(cities) && city.name !in Keys(old(cities)[id])
      ensures r.Ok? ==>
        && cities == old(cities)[id := old(cities)[id] + [(city.name, Empty)]]
        && pollers == old(pollers) + [Poller(id, city.name, city.latitude, city.longitude)]
        && ListCities(id) == Ok(old(ListCities(id)).value + [city.name])
        && CurrentWeather(id, city.name) == Ok(Empty)
      ensures forall u :: u != id ==> ListCities(u) == old(ListCities(u))
    {
      if id !in cities {
        return Err(UserNotFound);
      }
      var table := cities[id];
      if city.name in Keys(table) {
        return Err(DuplicateCity);
      }
      PutAbsentAppends(table, city.name, Empty);
      PutThenGet(table, city.name, Empty);
      AddKeepsConsistent(users, cities, pollers, id, city);
      cities := cities[id := Put(table, city.name, Empty)];
      pollers := pollers + [Poller(id, city.name, city.latitude, city.longitude)];
      r := Ok(());
    }

    /**
      The cache write of one poller tick: `user_weather_data[user][city] = reading`.
      The slot exists, so the write replaces its entry wholesale and leaves the
      city list, its order and every other entry as they were.
     */
    method ApplyPoll(p: Poller, reading: Reading)
      requires Valid()
      requires p in pollers
      modifies this
      ensures Valid()
      ensures users == old(users) && pollers == old(pollers)
      ensures p.user in old(cities)
      ensures cities == old(cities)[p.user := Put(old(cities)[p.user], p.city, Polled(reading))]
      ensures forall u :: ListCities(u) == old(ListCities(u))
      ensures CurrentWeather(p.user, p.city) == Ok(Polled(reading))
      ensures forall u, c :: (u, c) != (p.user, p.city) ==> CurrentWeather(u, c) == old(CurrentWeather(u, c))
    {
      PollKeepsConsistent(users, cities, pollers, p, reading);
      var table := cities[p.user];
      PutPresentKeepsKeys(table, p.city, Polled(reading));
      PutThenGet(table, p.city, Polled(reading));
      cities := cities[p.user := Put(table, p.city, Polled(reading))];
      forall u, c | (u, c) != (p.user, p.city)
        ensures CurrentWeather(u, c) == old(CurrentWeather(u, c))
      {
        if u == p.user {
          PutLeavesOthers(table, p.city, Polled(reading), c);
        }
      }
    }

    /**
      `POST /weather_at_time/{user_id}/`: the stored entry of the requested city,
      cut down to the requested field names. The first name the entry lacks
      fails the request with 400 and no map is returned. `time` plays no part.
     */
    method WeatherAtTime(id: UserId, request: WeatherRequest) returns (r: Result<map<string, FieldValue>>)
      ensures CurrentWeather(id, request.city).Err? ==> r == Err(CurrentWeather(id, request.city).error)
      ensures CurrentWeather(id, request.city).Ok? ==>
        var e := CurrentWeather(id, request.city).value;
        && (r.Ok? <==> forall k :: 0 <= k < |request.parameters| ==> Field(e, request.parameters[k]).Some?)
        && (r.Ok? ==> r.value.Keys == set k | 0 <= k < |request.parameters| :: request.parameters[k])
        && (r.Ok? ==> forall name :: name in r.value ==> Field(e, name) == Some(r.value[name]))
        && (r.Err? ==>
              exists k :: 0 <= k < |request.parameters|
                && r.error == UnknownParameter(request.parameters[k])
                && Field(e, request.parameters[k]).None?
                && (forall j :: 0 <= j < k ==> Field(e, request.parameters[j]).Some?))
    {
      var found := CurrentWeather(id, request.city);
      if found.Err? {
        return Err(found.error);
      }
      var entry := found.value;
      var params := request.parameters;
      var response: map<string, FieldValue> := map[];
      var i := 0;
      while i < |params|
        invariant 0 <= i <= |params|
        invariant forall j :: 0 <= j < i ==> Field(entry, params[j]).Some?
        invariant response.Keys == set j | 0 <= j < i :: params[j]
        invariant forall name :: name in response ==> Field(entry, name) == Some(response[name])
      {
        var value := Field(entry, params[i]);
        if value.None? {
          return Err(UnknownParameter(params[i]));
        }
        response := response[params[i] := value.value];
        i := i + 1;
      }
      r := Ok(response);
    }
  }
}
