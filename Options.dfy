/** Java's nullable references and java.util.Optional are both modelled by Option:
    None stands for null (or an empty Optional), Some(v) for a present value. */
module Options {

  datatype Option<+T> = None | Some(value: T)
}
