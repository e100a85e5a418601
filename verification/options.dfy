/** A C# reference that may be `null`, as a value: `None` stands for `null`. */
module Options {

  datatype Option<+T> = None | Some(value: T)
}
