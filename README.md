# Weather registry and cache — a Dafny model

This project models the in-memory state of a small weather-tracking web service
(`script.py`). The service keeps two module-level dictionaries. `users` maps a user
id to a username. `user_weather_data` maps a user id to that user's city table,
which maps each city name to its cached weather. The HTTP handlers work on these
as a keyed table with fixed error rules:

- `register_user` creates a user with an empty city table.
- `add_city` rejects an unknown user (404) and a duplicate name (400). Otherwise it
  inserts an empty `{}` slot and starts a background poller for that city.
- `list_cities` returns the city names in insertion order.
- `get_current_weather` returns the stored entry.
- `get_weather_at_time` projects the stored reading onto a list of field names.
  It fails with 400 on the first unknown name.
- Each tick of a poller overwrites its city's slot with a new reading.

Layout:

- `base.dfy` (module `Base`): the `Option` datatype, Python's `Optional`.
- `pydict.dfy` (module `PyDict`): a Python `dict` as an insertion-ordered sequence
  of `(key, value)` pairs. `Put` is `d[k] = v`: it replaces a present key's value
  where it stands and appends a new key at the end. Lemmas state what that keeps.
- `weather.dfy` (module `Weather`): the entities (`City`, `Reading`, `Entry`,
  `WeatherRequest`, `Poller`, `Error`). It also holds the class `Registry`, whose
  fields `users`, `cities` and `pollers` are the two dictionaries plus the list of
  started poller tasks. The handlers are the class's methods and functions.

`Registry.Valid()` is the invariant every state-changing handler keeps:

- both dictionaries have the same users;
- no user has a city name twice;
- the started pollers are bound one to one to the existing (user, city) slots.

A poller is recorded as a `Poller` value when `add_city` starts it. This makes two
facts statable. A rejected duplicate starts no second poller. A poller's write
always lands on a slot that already exists, so it replaces and never inserts.

Notes on the source:

- `get_weather_at_time` accepts `time` but never reads it. `WeatherAtTime`'s contract
  does not mention `request.time`.
- Python dicts keep insertion order, and assigning to an existing key does not move
  it. `PyDict.Put` and its lemmas state exactly this. The order `list_cities`
  returns follows from them.
- The code has no `try` around `fetch_weather` (script.py:43), so an exception there
  ends that poller task and no later tick runs. The poller
  loop is not modelled (see below). A `Poller` record therefore means "this task was
  started", not "this task is still alive".

## Model

| member | source | states |
|---|---|---|
| `PyDict.Keys` | script.py:86 | `list(d.keys())` has one key per entry, and the i-th key is the i-th inserted entry's key |
| `PyDict.Get` | script.py:77-79 | a lookup succeeds exactly when the key is among the dict's keys, and returns a value stored under that key |
| `PyDict.Put` | script.py:69 | `d[k] = v` never removes an entry and adds at most one; the value now stored under `k` is stated by `PutThenGet`, and which of the two sizes results by `PutPresentKeepsKeys` and `PutAbsentAppends` |
| `PyDict.PutPresentKeepsKeys` | script.py:46-50 | assigning to a key already present leaves the key sequence, order included, unchanged |
| `PyDict.PutAbsentAppends` | script.py:69 | assigning to an absent key appends exactly one `(key, value)` entry at the end, so the keys become the old keys followed by the new one |
| `PyDict.PutThenGet` | script.py:46-50 | after `d[k] = v`, looking up `k` gives `v` |
| `PyDict.PutLeavesOthers` | script.py:46-50 | `d[k] = v` leaves the lookup of every other key as it was |
| `PyDict.PutKeepsDistinct` | script.py:66-69 | assignment never creates a duplicate key in a dict whose keys are distinct |
| `Weather.StatusCode` | script.py:64-103 | the not-found errors (unknown user, unknown city) and only they are raised with 404; the duplicate-city and unknown-parameter errors and only they with 400 |
| `Weather.Field` | script.py:100-101 | a stored entry has a field exactly when it holds a reading and the name is `temperature`, `windspeed` or `pressure`; the value is that reading's field, with an absent pressure as `None`; the `{}` placeholder has no field |
| `Weather.SlotsAfterAppend` | script.py:69 | giving a user a table with one more city name adds exactly that (user, city) slot and no other |
| `Weather.SlotsSameKeys` | script.py:46-50 | replacing a user's table by one with the same names keeps the set of slots |
| `Weather.NewPollerIsUnique` | script.py:66-70 | the poller started for a name the user does not yet have is bound to a slot no earlier poller has, so no slot ever gets two pollers |
| `Weather.AddKeepsConsistent` | script.py:62-71 | a successful add (new slot plus one new poller bound to it) keeps the state invariant: same users in both dictionaries, distinct names per user, pollers one to one with slots |
| `Weather.PollKeepsConsistent` | script.py:46-50 | a started poller's slot exists, and its write keeps the state invariant |
| `Weather.Registry.constructor` | script.py:12-13 | at start both dictionaries are empty and no poller runs, and the invariant holds |
| `Weather.Registry.ListCities` | script.py:82-86 | 404 (`UserNotFound`) exactly for an unknown user; otherwise the listed names are exactly the user's city keys, and they contain no duplicate while the invariant holds |
| `Weather.Registry.CurrentWeather` | script.py:74-79 | 404 `UserNotFound` for an unknown user, 404 `CityNotFound` exactly for a city the user has not added; otherwise the entry stored under that city |
| `Weather.Registry.RegisterUser` | script.py:55-59 | with a fresh id: stores the username and an empty city table under it and returns the id; every other user's data and the pollers are unchanged; the invariant is kept |
| `Weather.Registry.AddCity` | script.py:62-71 | unknown user gives `UserNotFound`; a name the user already has gives `DuplicateCity`; either error changes nothing (no new slot, no second poller, existing reading untouched); otherwise the name is appended with an `Empty` entry, one poller bound to it is started, the listing becomes the old listing followed by the name, other users are unchanged, and the invariant is kept |
| `Weather.Registry.ApplyPoll` | script.py:46-50 | a poller's write replaces its own slot's entry wholesale with the new reading; every user's city list and order, every other entry, the users and the pollers are unchanged; the invariant is kept |
| `Weather.Registry.WeatherAtTime` | script.py:89-105 | unknown user or city gives the same 404 as the current-weather lookup; otherwise success exactly when every requested name is a field of the stored entry, and then the map's keys are the requested names and each maps to the stored field's value; on failure the error names the first unknown name in the request and no map is returned; `time` plays no part |

## Left out

- `fetch_weather` (script.py:33-39): an outbound HTTP call through `httpx`, with its status check and JSON decoding. The new reading is an input of `ApplyPoll`.
- The poller's `while True` loop, `asyncio.sleep(900)` and `asyncio.create_task` (script.py:42, 52, 70): background concurrency and an endless periodic task. Only the single cache write of one tick is modelled, as `ApplyPoll`. Starting a task is recorded as an entry in `pollers`. Whether a task is still running is not modelled.
- The mapping of the provider payload through `weather['current_weather']` and `.get(...)`, and pydantic validation of `WeatherResponse`, `City`, `WeatherRequest` and `UserRegistration` (script.py:15-31, 44-49): library behaviour. A `Reading` always has a temperature and a wind speed.
- `uuid.uuid4()` (script.py:56): nondeterministic. `RegisterUser` takes the id as a parameter and requires that it is not yet in use.
- Floating point: temperature, wind speed, pressure and the coordinates are `real` values that are only stored and copied.
- Weather.Field: models the closed field set `{temperature, windspeed, pressure}`. Python's `hasattr`/`getattr` also find other attributes, such as `keys` on the `{}` placeholder or pydantic's own method names; those are not modelled.
- Weather.Registry.WeatherAtTime: the response is a `map`, so the order of its keys is not modelled.
- Weather.Registry.AddCity: the confirmation message text is not modelled; success is `Ok(())`.
- FastAPI routing, `HTTPException` plumbing, response-model validation and `uvicorn.run` (script.py:10, 54-108): framework glue. Outcomes are `Result` values. `StatusCode` only documents which HTTP status each error is raised with; no handler of the model uses it. What the framework's response validation does with a `{}` entry or a `None` pressure is not modelled.
