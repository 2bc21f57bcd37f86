/** The shapes of the records the converter reads and writes (the typedefs
    at the head of app.js), and the JavaScript truthiness of an optional
    string. */
module Records {
  import opened Wrappers

  /** JavaScript truthiness of a string-or-nullish value: present and
      non-empty. */
  predicate Truthy(v: Option<string>) {
    v.Some? && v.value != ""
  }

  /** The JSON value of a profile flag. `Number(n)` is an integral number;
      `NotNumber` stands for every other value (strings, booleans, `null`,
      a missing field, non-integral numbers), none of which is `=== 1`. */
  datatype Flag = Number(n: int) | NotNumber

  /** One legacy Heritrix seed. `None` for `url` or `description` stands for
      a missing field or JSON `null`. */
  datatype Seed = Seed(
    url: Option<string>,
    description: Option<string>,
    deact: Flag,
    p1: Flag, p2: Flag, p3: Flag, p4: Flag, p5: Flag, p6: Flag,
    p7: Flag, p8: Flag, p9: Flag, p10: Flag, p99: Flag)

  /** A `{key, value}` label of the target system. */
  datatype Label = Label(key: string, value: string)

  /** One entry of the school and university lookup list. */
  datatype School = School(url: string, institusjon: string)

  /** The record written for one seed; `None` is `undefined`. */
  datatype VeidemannSeed = VeidemannSeed(
    entityName: Option<string>,
    uri: Option<string>,
    entityDescription: Option<string>,
    entityLabel: seq<Label>,
    seedLabel: seq<Label>,
    seedDescription: string)

  /** The provenance label that both label lists start with. */
  const Provenance := Label("source", "heritrix")
}
