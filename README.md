# Campus catalog and location seeding, modelled in Dafny

This project models the campus catalog of the AR campus navigation app. The
catalog is the Kotlin object `CollegeLocations`. It turns the catalog into
flat location records, which an admin screen writes to the location database.

- The catalog holds two colleges: "MVGR College" with 5 blocks and "GVPCE College" with 9.
  A block is a named building with a latitude and a longitude.
- `blockToLocationData` turns one block into a `LocationData` record. The record gets:
  - an id: clock plus the hash of the name;
  - a display name, with an optional `"<prefix> - "` in front;
  - a `"lat,lon"` location;
  - a `"<name> at <lat>, <lon>"` description;
  - the fixed azimuth `"0.0"` and an empty image URL.
- `getAllLocationsData` flattens every block of every college, in catalog order.
  It uses nested loops that append to a mutable list. It can prefix each record with its college's name.
- `getCollegeLocations` finds the first college with the exact name and converts its blocks.
  An unknown name gives an empty list.

Everything is in `college_locations.dfy`, module `CollegeLocations`:

- `getAllLocationsData` is the method `GetAllLocationsData`. Its nested `for` loops have invariants.
  It is proved equal to the function `AllLocations`.
- `blockToLocationData` and `getCollegeLocations` are functions.
- The wall clock is the parameter `clock: nat -> int`. `clock(k)` is the reading taken by the k-th
  conversion of a run, because each conversion reads the clock again. A clock whose readings are
  all equal is `Stopped`.
- The string hash is the parameter `hash: string -> int`.
- Coordinates are kept as the decimal text that Kotlin renders them to.
- The catalog is a parameter of every operation. `Colleges` is the constant that the Kotlin object
  passes. The lemmas about the shipped data use it.

## Model

| member | source | states |
|---|---|---|
| `CollegeLocations.BlockToLocationData` | app/src/main/java/com/example/arnavigationapp/admin/all_location/model/CollegeLocationData.kt:58-71 | Converts one block at one clock reading. Every record it gives has azimuth `"0.0"` and an empty image URL, whatever the block, prefix and clock (lines 67 and 69). Its name, location, description and id are stated by `DisplayNameRule`, `LocationAndDescription` and `IdFromClockAndName`. |
| `CollegeLocations.DisplayNameRule` | app/src/main/java/com/example/arnavigationapp/admin/all_location/model/CollegeLocationData.kt:60 | An empty prefix leaves the name equal to the block name. Any other prefix gives `prefix + " - " + name`, which then differs from the block name. Either way the name ends with the block name. |
| `CollegeLocations.LocationAndDescription` | app/src/main/java/com/example/arnavigationapp/admin/all_location/model/CollegeLocationData.kt:61-68 | The location is `lat + "," + lon`. The description is `name + " at " + lat + ", " + lon` and uses the unprefixed name. Two prefixes give the same description. |
| `CollegeLocations.IdFromClockAndName` | app/src/main/java/com/example/arnavigationapp/admin/all_location/model/CollegeLocationData.kt:59 | For two blocks with the same name, the ids are equal exactly when the clock readings are equal. The prefix and coordinates play no part. |
| `CollegeLocations.AllLocations` | app/src/main/java/com/example/arnavigationapp/admin/all_location/model/CollegeLocationData.kt:78-89 | The flattening has one record per block: its length is the sum of the colleges' block counts. |
| `CollegeLocations.GetAllLocationsData` | app/src/main/java/com/example/arnavigationapp/admin/all_location/model/CollegeLocationData.kt:78-89 | The nested loops that append to the result build exactly `AllLocations` for the catalog. The k-th append uses clock reading k. |
| `CollegeLocations.AllLocationsAt` | app/src/main/java/com/example/arnavigationapp/admin/all_location/model/CollegeLocationData.kt:81-86 | Record `TotalBlocks(catalog[..i]) + j` is block j of college i (college-major, block-minor order). It is converted with that college's prefix and the clock reading of its position. |
| `CollegeLocations.BlockOrigin` | app/src/main/java/com/example/arnavigationapp/admin/all_location/model/CollegeLocationData.kt:81-86 | Every record index below the total comes from a block that it names. That block is at college i and position j, with the index equal to `TotalBlocks(catalog[..i]) + j`. `PositionsDistinct` gives uniqueness. |
| `CollegeLocations.PositionsDistinct` | app/src/main/java/com/example/arnavigationapp/admin/all_location/model/CollegeLocationData.kt:81-86 | Two positions (college i, block j) and (college i2, block j2) with the same record index are the same position. Together with `BlockOrigin` and `AllLocationsAt`, every record comes from exactly one block of exactly one college. |
| `CollegeLocations.AllLocationsFixedFields` | app/src/main/java/com/example/arnavigationapp/admin/all_location/model/CollegeLocationData.kt:81-86 | Every record of the flattening has azimuth `"0.0"` and an empty image URL. |
| `CollegeLocations.AllLocationsNames` | app/src/main/java/com/example/arnavigationapp/admin/all_location/model/CollegeLocationData.kt:83-84 | With the prefix flag on and a non-empty college name, every record of college C is named `C.name + " - " + block.name`. Otherwise it is named as its block. The description always uses the block name. |
| `CollegeLocations.FindCollege` | app/src/main/java/com/example/arnavigationapp/admin/all_location/model/CollegeLocationData.kt:98 | The result is absent exactly when no college has the name. Otherwise it is the index of the first college with that name. |
| `CollegeLocations.GetCollegeLocations` | app/src/main/java/com/example/arnavigationapp/admin/all_location/model/CollegeLocationData.kt:97-104 | A non-empty result means a college with that exact name exists, and the result has one record per block of it. The two directions of the lookup are stated by `CollegeLocationsMiss` and `CollegeLocationsHit`. |
| `CollegeLocations.CollegeLocationsMiss` | app/src/main/java/com/example/arnavigationapp/admin/all_location/model/CollegeLocationData.kt:98 | A name that no college has gives the empty list. It is not an error. |
| `CollegeLocations.CollegeLocationsHit` | app/src/main/java/com/example/arnavigationapp/admin/all_location/model/CollegeLocationData.kt:100-103 | For the first college with a name, the result has one record per block of that college. Record k is block k with that college's prefix, at clock reading k. |
| `CollegeLocations.ConvertBlocksStopped` | app/src/main/java/com/example/arnavigationapp/admin/all_location/model/CollegeLocationData.kt:59 | Under a stopped clock, the records do not depend on where in a run the conversions start. |
| `CollegeLocations.AllLocationsIsPerCollege` | app/src/main/java/com/example/arnavigationapp/admin/all_location/model/CollegeLocationData.kt:78-104 | Take a catalog with distinct college names and a stopped clock. Flattening it equals concatenating `GetCollegeLocations` of each college's name, in catalog order. |
| `CollegeLocations.CatalogShape` | app/src/main/java/com/example/arnavigationapp/admin/all_location/model/CollegeLocationData.kt:25-50 | The catalog has two colleges of 5 and 9 blocks, with distinct names. Flattening it gives 14 records. |
| `CollegeLocations.CivilBlockIdsCollide` | app/src/main/java/com/example/arnavigationapp/admin/all_location/model/CollegeLocationData.kt:59 | Under a stopped clock, MVGR's "Civil Block" (record 4, line 30) and GVPCE's "Civil Block" (record 5, line 35) get equal ids. Their prefixed names still differ. |
| `CollegeLocations.MvgrFirstRecord` | app/src/main/java/com/example/arnavigationapp/admin/all_location/model/CollegeLocationData.kt:97-103 | "MVGR College" with the prefix gives 5 records. The first is named "MVGR College - Mechanical Block", with location "18.06035,83.40407", description "Mechanical Block at 18.06035, 83.40407", azimuth "0.0", an empty image URL and id `clock(0) + hash("Mechanical Block")`. |
| `CollegeLocations.UnknownCollegeIsEmpty` | app/src/main/java/com/example/arnavigationapp/admin/all_location/model/CollegeLocationData.kt:98 | Looking up "NonexistentName" in the catalog gives the empty list. |

The prefix test in the Kotlin code is `collegePrefix.isEmpty()`, so a college whose name is empty
gets no `" - "` even when prefixing is on. `AllLocationsNames` states that case. The plain rule
"every record is named `C.name + " - " + block.name`" holds only for non-empty college names, and
every name in the shipped catalog is non-empty.

## Left out

- The admin screen `InitializeLocationsFragment.kt` is not part of this model. It is UI plumbing: view binding, radio buttons, a progress bar, toasts, thread hops and delayed navigation.
- The view-model and persistence layer that store the records are not part of this model. `LocationData` has only the six constructor fields that the conversion fills in.
- `System.currentTimeMillis()` is the parameter `clock`, because wall-clock time is not deterministic.
- `String.hashCode` is the parameter `hash`, because it is platform code.
- The `Long + Int` id is unbounded integer addition. 64-bit overflow is not modelled, because it needs a clock near 2^63 milliseconds.
- Kotlin's `Double`-to-`String` rendering is not modelled, because it is floating-point formatting. Blocks hold the rendered latitude and longitude text.
- Kotlin's default arguments (`collegePrefix = ""`, `useCollegePrefix = true`) are not modelled. A default is one value of its parameter, and the model covers every value, so no behaviour is lost.
- The catalog is an explicit parameter, not read from the object. `Colleges` is the value the Kotlin object uses.
- `GetAllLocationsData` builds an immutable `seq`. The Kotlin mutable list is local to the call and never shared, so no aliasing is lost.
