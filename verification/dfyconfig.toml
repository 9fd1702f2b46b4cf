includes = ["**/*.dfy"]

[options]
verification-time-limit = 0
