/** A few lines of the repository do not do what their surroundings rely on. Models that touch one take a reading
    of it: the line as it is, or as its surroundings intend it. */
module Readings {
  datatype Reading = AsWritten | Intended
}
