# spotcast: device reconciliation and the DJ call rewrite, in Dafny

This project models two pieces of the spotcast Home Assistant integration,
which plays Spotify on Home Assistant media players.

- **`DeviceManager.async_update`** (module `MediaPlayer`, `media_player.dfy`).
  The manager keeps a dictionary `tracked_devices` from Spotify device id to
  media-player entity. On every update it reads the account's device list and
  builds a lookup keyed by id, in which the last record of a repeated id wins.
  It then runs three loops:
  - Every reported id that is not tracked, and whose type is not
    `"CastAudio"`, gets a new entity. The entity is tracked and handed to the
    entity-registration callback in a call of its own.
  - Every tracked entity whose id is no longer reported is flagged unavailable.
  - Those ids are popped from the dictionary.

  `SpotifyDevice` is a class with a mutable `isUnavailable` flag, so the
  contracts can say "the very same entity is kept" as well as "a fresh entity
  is created". The callback is recorded as the sequence `registrations` of its
  arguments.
- **The `play_dj` service** (module `Services`, `play_dj.dfy`). It reads the
  optional `data` extras of a service call and passes them through
  `_clean_extras`, which is meant to keep only `volume`. It then copies the
  call data, sets `spotify_uri` to the DJ's URI and `data` to the cleaned
  extras, and replaces the call's data. As written, `_clean_extras` returns
  its loop variable rather than the dictionary it builds (see Findings).
  `RewriteCallData` and `AsyncPlayDj` model that behaviour exactly.

Python's `dict` is modelled once, in module `PyDict` (`py_dict.dfy`). A
`Dict` value holds a map and the list of its keys in insertion order.
Assigning to a present key keeps its place, a new key goes last, and `pop`
keeps the order of the others. The model needs this order because it decides
the order of the registration calls and which duplicate record wins.

The device manager's loops are imperative methods on the `DeviceManager`
class. Each loop is proved against ghost specification functions:
- `IndexById` is the lookup.
- `NewIds` lists the ids that get new entities, in visiting order.
- `UpdatedKeys` is the tracked key order after an update.

The properties the source promises are proved about these functions as
lemmas.

## Model

| member | source | states |
|---|---|---|
| PyDict.Put | custom_components/spotcast/media_player/device_manager.py:74 | `d[k] = v` keeps a well-formed dictionary: keys distinct and exactly the map's domain |
| PyDict.Pop | custom_components/spotcast/media_player/device_manager.py:91 | `d.pop(k)` keeps a well-formed dictionary |
| PyDict.PopKeepsOrder | custom_components/spotcast/media_player/device_manager.py:90-91 | popping a key keeps the remaining keys in their original order |
| MediaPlayer.IndexById | custom_components/spotcast/media_player/device_manager.py:55 | the lookup's keys are exactly the reported ids; each record is stored under its own id; for a repeated id the last record wins |
| MediaPlayer.IndexByIdKeepsFirstSeenOrder | custom_components/spotcast/media_player/device_manager.py:55 | lookup keys appear in order of first report: reading more records only appends keys |
| MediaPlayer.NewIds | custom_components/spotcast/media_player/device_manager.py:57-75 | an id gets a new entity iff it is reported, not yet tracked and its (last) type is not ignored; no id gets two |
| MediaPlayer.CastAudioIsNeverAdded | custom_components/spotcast/media_player/device_manager.py:37-39 | no device of type "CastAudio" is ever given an entity |
| MediaPlayer.UpdatedKeys | custom_components/spotcast/media_player/device_manager.py:57-91 | after an update an id is tracked iff it is reported and was already tracked or has a non-ignored type; removal depends on absence alone |
| MediaPlayer.UpdateIsIdempotent | custom_components/spotcast/media_player/device_manager.py:57-91 | a second update with the same lookup creates no entity, flags nothing and leaves the tracked ids and their order unchanged |
| MediaPlayer.Registered | custom_components/spotcast/media_player/device_manager.py:75 | the registration calls for a list of ids: one call per id, in order, each holding exactly that id's entity |
| MediaPlayer.ForgetVanishedEntries | custom_components/spotcast/media_player/device_manager.py:77-91 | popping the listed vanished ids keeps exactly the reported entries, in order |
| MediaPlayer.SpotifyDevice.constructor | custom_components/spotcast/media_player/device_manager.py:73 | a new entity holds its account and device record and is available |
| MediaPlayer.DeviceManager.constructor | custom_components/spotcast/media_player/device_manager.py:41-50 | a new manager tracks nothing and has registered nothing |
| MediaPlayer.DeviceManager.AsyncUpdate | custom_components/spotcast/media_player/device_manager.py:52-91 | tracked keys become `UpdatedKeys`; a still-reported device keeps its very entity with its flag untouched; a vanished device's entity is flagged unavailable; each new id gets a fresh available entity built from its last record, registered in a call of its own, in visiting order |
| MediaPlayer.DeviceManager.AddNewDevices | custom_components/spotcast/media_player/device_manager.py:57-75 | appends exactly `NewIds` to the tracked keys with fresh entities, one registration call each in order; existing entries and their flags are unchanged |
| MediaPlayer.DeviceManager.TrackNewDevice | custom_components/spotcast/media_player/device_manager.py:73-75 | one new entity is tracked under the id at the end of the order and registered alone |
| MediaPlayer.DeviceManager.RetireVanished | custom_components/spotcast/media_player/device_manager.py:77-91 | vanished ids have their entity flagged and are dropped; the others keep entity, flag and order |
| MediaPlayer.DeviceManager.MarkVanishedUnavailable | custom_components/spotcast/media_player/device_manager.py:77-88 | returns the tracked ids absent from the lookup in tracking order and flags exactly their entities |
| MediaPlayer.DeviceManager.ForgetDevices | custom_components/spotcast/media_player/device_manager.py:90-91 | pops every listed id; the rest keep their entities and their order |
| Services.CleanExtras | custom_components/spotcast/services/play_dj.py:53-65 | the extras `_clean_extras` builds in `result`: exactly the kept keys of the input, each with its original value |
| Services.CleanExtrasKeepsOnlyVolume | custom_components/spotcast/services/play_dj.py:53 | the cleaned extras hold the single key "volume" when present, and nothing otherwise |
| Services.CleanExtrasIsIdempotent | custom_components/spotcast/services/play_dj.py:50-65 | cleaning cleaned extras changes nothing |
| Services.ReturnedValue | custom_components/spotcast/services/play_dj.py:56-67 | what `_clean_extras` returns: the value of the last key iterated, or UnboundLocalError on an empty dict |
| Services.CleanExtrasAsWritten | custom_components/spotcast/services/play_dj.py:50-67 | the loop builds exactly `CleanExtras` in `result` and returns `ReturnedValue` |
| Services.CleanExtrasReturnsLastValue | custom_components/spotcast/services/play_dj.py:67 | for `{"volume": 50, "position": 3}` the cleaned dict is `{"volume": 50}` but the returned value is `3` |
| Services.CleanExtrasOfEmptyFails | custom_components/spotcast/services/play_dj.py:56-67 | for `{}` the function raises UnboundLocalError instead of returning `{}` |
| Services.ExtrasAsWritten | custom_components/spotcast/services/play_dj.py:37-40 | the rewrite fails exactly when `data` is present but not a non-empty dict: UnboundLocalError for `{}`, AttributeError for a non-dict value; otherwise absent extras stay None and a non-empty dict yields the value of its last key |
| Services.WithDjRequest | custom_components/spotcast/services/play_dj.py:42-44 | the copied call data has `spotify_uri` equal to the DJ URI whatever it was, `data` equal to the extras, every other key carried over unchanged, and the original keys first in their order |
| Services.RewriteCallData | custom_components/spotcast/services/play_dj.py:37-44 | the rewritten call data, or the exception `_clean_extras` raises |
| Services.AsyncPlayDj | custom_components/spotcast/services/play_dj.py:29-47 | on success the call's data is replaced by the rewritten data; on an exception it is left as it was and the error is reported |

## Left out

- Fetching the device list (`account.async_devices()`) is network I/O. `AsyncUpdate` takes the list as its `snapshot` parameter.
- A device record lacking an `id` or `type` field would raise KeyError. Records always have both fields here.
- The unused argument of `async_update`, logging, and async scheduling are not modelled. Overlapping updates are a concurrency concern.
- `SpotifyDevice` is not part of this model beyond its account, its record and the unavailable flag. Its flag is assumed to start as False.
- `async_add_entities` is a Home Assistant callback. It is modelled as the recorded list `registrations` of its arguments.
- `SpotifyAccount` is reduced to its name. `SpotifyAccount.DJ_URI` is a parameter, because its value is defined outside the modelled files.
- `async_play_media` receives the rewritten call and is not modelled.
- The voluptuous schemas (`PLAY_DJ_SCHEMA`, `EXTRAS_SCHEMA`) are not modelled. A non-dict `data` value, which the schema would normally reject, raises AttributeError in the model.
- `copy_to_dict` is modelled as a plain copy and `ReadOnlyDict` as the identity.
- Service-call values are None, booleans, integers, strings and nested dicts. Floats and lists are not modelled.
- `config_flow_handler.py` and the account test are outside this model.
- MediaPlayer.UpdateIsIdempotent: states the second update's effect through `UpdatedKeys` and `NewIds`, not through a second call of `AsyncUpdate`. Together with `AsyncUpdate`'s contract it gives the full claim: no new entities or calls, and no flags.

## Findings

| source | as written | input that shows it | evidently intended | confidence | as-written member | corrected member |
|---|---|---|---|---|---|---|
| custom_components/spotcast/services/play_dj.py:67 | `_clean_extras` returns its loop variable `value`, not `result` | `{"volume": 50, "position": 3}` returns `3`; `{}` raises UnboundLocalError | return `result`: `{"volume": 50}` and `{}` respectively, as the docstring says | high; not executed | Services.CleanExtrasAsWritten | Services.CleanExtras |

The service handler keeps the behaviour as written: `RewriteCallData` and
`AsyncPlayDj` put the leaked value under `data`. The corrected filter
`CleanExtras` specifies the `result` dictionary the loop builds. Its
properties are proved in `CleanExtrasKeepsOnlyVolume` and
`CleanExtrasIsIdempotent`.
