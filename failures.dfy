/** The exceptions the core raises, as values. */
module Failures {

  datatype Failure =
    | NotAnApk                              // RuntimeException("Not is apk")
    | NoClassesDex                          // RuntimeException("No classes.dex")
    | DexInjectError                        // RuntimeException("Dex inject instruction error")
    | IndexOutOfBounds(index: int, size: int) // List.get / List.set outside the list
    | NumberFormat(text: string)            // Integer.parseInt on text that is not an int
}
