/** Values standing for Java's null and for the exceptions the document viewer throws or catches. */
module Outcomes {

  /** A Java reference that may be null. */
  datatype Option<+T> = None | Some(value: T)

  /** The exceptions that cross the modelled code, by the Java class that carries them. */
  datatype Exception =
    | IOException          // java.io.IOException, also FileNotFoundException
    | RepositoryException  // javax.jcr.RepositoryException from a repository write
    | ValueFormat          // javax.jcr.ValueFormatException from Property.getLong
    | IndexOutOfBounds     // java.lang.IndexOutOfBoundsException from List.get
    | NullPointer          // java.lang.NullPointerException
    | IllegalArgument      // java.lang.IllegalArgumentException from a constructor check
    | ExecuteFailure       // org.apache.commons.exec.ExecuteException: the process failed
    | ConversionFailure    // whatever a foreign converter or renderer throws

  /** The value a Java method returns, or the exception it throws. */
  datatype Result<+T> = Ok(value: T) | Err(error: Exception)

  /** The outcome of a Java method returning void. */
  datatype Outcome = Pass | Fail(error: Exception)
}
